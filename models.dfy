// The one helper of the image table's record module: how a list of
// anomaly notes is stored in the single `anomalies` text column.

module Models {
  import opened Text

  /** `anomalies_to_str`: no notes are stored as NULL, otherwise the notes
    * joined by ';'. */
  function AnomaliesToStr(items: seq<string>): (r: Option<string>)
    ensures r.None? <==> |items| == 0
    ensures |items| == 1 ==> r == Some(items[0])
  {
    if |items| > 0 then Some(Join(items, ";")) else None
  }

  /** Notes free of ';' are read back from the column by splitting on ';'. */
  lemma AnomaliesRoundTrip(items: seq<string>)
    requires |items| > 0
    requires forall k :: 0 <= k < |items| ==> !HasChar(items[k], ';')
    ensures AnomaliesToStr(items).Some?
    ensures Split(AnomaliesToStr(items).value, ';') == items
  {
    SplitJoin(items, ';');
  }

  /** Splitting the stored text and storing the parts again gives the same text. */
  lemma AnomaliesStable(stored: string)
    ensures AnomaliesToStr(Split(stored, ';')) == Some(stored)
  {
    JoinSplit(stored, ';');
  }
}
