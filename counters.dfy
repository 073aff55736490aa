/** `collections.Counter` as the app uses it: a counter fills in insertion
  * order, `counter[k] += 1` appends a missing key with count 1, and a missing
  * key reads as 0. */
module Counters {
  import opened Text

  /** A `collections.Counter` in insertion order: each key with its count. */
  type Counter<K> = seq<(K, nat)>

  /** The position of k's entry, or -1. */
  function IndexOf<K(==)>(c: Counter<K>, k: K): (i: int)
    ensures -1 <= i < |c|
    ensures i >= 0 ==> c[i].0 == k && forall j :: 0 <= j < i ==> c[j].0 != k
    ensures i < 0 ==> forall j :: 0 <= j < |c| ==> c[j].0 != k
  {
    if |c| == 0 then -1
    else if c[0].0 == k then 0
    else
      var i := IndexOf(c[1..], k);
      if i < 0 then -1 else i + 1
  }

  predicate Has<K(==)>(c: Counter<K>, k: K) {
    IndexOf(c, k) >= 0
  }

  /** `counter[k]`: 0 for a missing key. */
  function Get<K(==)>(c: Counter<K>, k: K): nat {
    var i := IndexOf(c, k);
    if i < 0 then 0 else c[i].1
  }

  /** `counter[k] += 1`: a new key is appended with count 1. */
  function Bump<K(==)>(c: Counter<K>, k: K): (r: Counter<K>)
    ensures |r| == |c| || |r| == |c| + 1
  {
    var i := IndexOf(c, k);
    if i < 0 then c + [(k, 1)] else c[i := (k, c[i].1 + 1)]
  }

  predicate DistinctKeys<K(==)>(c: Counter<K>) {
    forall i, j :: 0 <= i < j < |c| ==> c[i].0 != c[j].0
  }

  predicate Positive<K>(c: Counter<K>) {
    forall i :: 0 <= i < |c| ==> c[i].1 > 0
  }

  /** Keys stay distinct and counts positive; only k's count grows, by one. */
  lemma BumpSpec<K>(c: Counter<K>, k: K, x: K)
    requires DistinctKeys(c) && Positive(c)
    ensures DistinctKeys(Bump(c, k)) && Positive(Bump(c, k))
    ensures Get(Bump(c, k), x) == Get(c, x) + (if x == k then 1 else 0)
    ensures Has(Bump(c, k), x) <==> Has(c, x) || x == k
  {
    var r := Bump(c, k);
    var i := IndexOf(c, k);
    var ix := IndexOf(c, x);
    var rx := IndexOf(r, x);
    if i < 0 {
      if ix >= 0 {
        assert r[ix].0 == x;
      } else if x == k {
        assert r[|c|].0 == x;
      }
    } else {
      if ix >= 0 {
        assert r[ix].0 == x;
      }
    }
  }

  /** An entry of a counter with distinct keys is what `Get` reads. */
  lemma EntryGet<K>(c: Counter<K>, j: int)
    requires DistinctKeys(c) && 0 <= j < |c|
    ensures Has(c, c[j].0) && Get(c, c[j].0) == c[j].1
  {
  }

  /** `max(counter.values())`, 0 for an empty counter. */
  function MaxCount<K>(c: Counter<K>): (m: nat)
    ensures forall i :: 0 <= i < |c| ==> c[i].1 <= m
    ensures |c| > 0 ==> exists i :: 0 <= i < |c| && c[i].1 == m
    ensures |c| == 0 ==> m == 0
  {
    if |c| == 0 then 0
    else
      var m := MaxCount(c[1..]);
      assert forall i :: 1 <= i < |c| ==> c[i] == c[1..][i - 1];
      if c[0].1 >= m then c[0].1 else m
  }

  /** The elements of ws whose key is k, in order. */
  function Matching<K(==)>(ws: seq<string>, key: string -> Option<K>, k: K): (r: seq<string>)
    ensures |r| <= |ws|
  {
    if |ws| == 0 then []
    else
      var m := Matching(ws[..|ws| - 1], key, k);
      if key(ws[|ws| - 1]) == Some(k) then m + [ws[|ws| - 1]] else m
  }

  lemma {:induction false} MatchingMembers<K>(ws: seq<string>, key: string -> Option<K>, k: K)
    ensures forall w :: w in Matching(ws, key, k) <==> w in ws && key(w) == Some(k)
  {
    if |ws| > 0 {
      var init := ws[..|ws| - 1];
      MatchingMembers(init, key, k);
      assert ws == init + [ws[|ws| - 1]];
    }
  }

  /** `counter[k] += 1` when there is a key k. */
  function BumpAt<K(==)>(c: Counter<K>, k: Option<K>): Counter<K> {
    if k.Some? then Bump(c, k.value) else c
  }

  /** A Counter filled by `counter[key(w)] += 1` for every w whose key exists. */
  function TallyOf<K(==)>(ws: seq<string>, key: string -> Option<K>): Counter<K> {
    if |ws| == 0 then [] else BumpAt(TallyOf(ws[..|ws| - 1], key), key(ws[|ws| - 1]))
  }

  /** Each key is counted exactly as often as it occurs, keys are distinct, and
    * a key is present exactly when some element has it. */
  lemma {:induction false} TallyOfExact<K>(ws: seq<string>, key: string -> Option<K>, k: K)
    ensures DistinctKeys(TallyOf(ws, key)) && Positive(TallyOf(ws, key))
    ensures Get(TallyOf(ws, key), k) == |Matching(ws, key, k)|
    ensures Has(TallyOf(ws, key), k) <==> |Matching(ws, key, k)| > 0
  {
    if |ws| > 0 {
      var init := ws[..|ws| - 1];
      TallyOfExact(init, key, k);
      var x := key(ws[|ws| - 1]);
      if x.Some? {
        BumpSpec(TallyOf(init, key), x.value, k);
      }
    }
  }

  /** A key is present exactly when a well has it. */
  lemma TallyOfHas<K>(ws: seq<string>, key: string -> Option<K>, k: K)
    ensures Has(TallyOf(ws, key), k) <==> exists w :: w in ws && key(w) == Some(k)
  {
    TallyOfExact(ws, key, k);
    MatchingMembers(ws, key, k);
    if exists w :: w in ws && key(w) == Some(k) {
      var w :| w in ws && key(w) == Some(k);
      assert w in Matching(ws, key, k);
    } else if |Matching(ws, key, k)| > 0 {
      assert Matching(ws, key, k)[0] in Matching(ws, key, k);
    }
  }

  /** `sum(counter.values())`. */
  function Total<K>(c: Counter<K>): nat {
    if |c| == 0 then 0 else c[0].1 + Total(c[1..])
  }

  lemma {:induction false} TotalAppend<K>(c: Counter<K>, e: (K, nat))
    ensures Total(c + [e]) == Total(c) + e.1
  {
    if |c| > 0 {
      assert (c + [e])[1..] == c[1..] + [e];
      TotalAppend(c[1..], e);
    }
  }

  lemma {:induction false} TotalUpdate<K>(c: Counter<K>, i: int, e: (K, nat))
    requires 0 <= i < |c|
    ensures Total(c[i := e]) + c[i].1 == Total(c) + e.1
  {
    if i > 0 {
      assert c[i := e][1..] == c[1..][i - 1 := e];
      TotalUpdate(c[1..], i - 1, e);
    }
  }

  /** How many elements of ws have a key. */
  function KeyedCount<K>(ws: seq<string>, key: string -> Option<K>): (n: nat)
    ensures n <= |ws|
  {
    if |ws| == 0 then 0
    else KeyedCount(ws[..|ws| - 1], key) + (if key(ws[|ws| - 1]).Some? then 1 else 0)
  }

  /** The counts of a tally add up to the number of elements that have a key,
    * so no element is counted twice and the total never exceeds |ws|. */
  lemma {:induction false} TallyOfTotal<K>(ws: seq<string>, key: string -> Option<K>)
    ensures Total(TallyOf(ws, key)) == KeyedCount(ws, key) <= |ws|
  {
    if |ws| > 0 {
      var init := ws[..|ws| - 1];
      TallyOfTotal(init, key);
      var c := TallyOf(init, key);
      var x := key(ws[|ws| - 1]);
      if x.Some? {
        var i := IndexOf(c, x.value);
        if i < 0 {
          TotalAppend(c, (x.value, 1));
        } else {
          TotalUpdate(c, i, (x.value, c[i].1 + 1));
        }
      }
    }
  }
}
