/** A backtracking matcher with the semantics of Python's `re` module:
  * leftmost match, greedy or lazy repetition, ordered alternation,
  * lookaround, `\b`, `^` and `$`. `Match` lists every way a pattern can
  * match at a position, in the order the backtracking engine tries them,
  * so the first entry is the one Python reports. The application's
  * patterns are written below as values of `Re`, one per source pattern. */
module Regex {
  import opened Text

  datatype Span = Span(start: nat, end: nat)
  datatype Range = Range(lo: char, hi: char)

  datatype Re =
    | Eps                                   // the empty pattern
    | Set(ranges: seq<Range>, negated: bool) // one character in (or, negated, outside) the ranges
    | AnyChar                               // `.`: any character but '\n'
    | Cat(first: Re, second: Re)
    | Alt(left: Re, right: Re)              // `left|right`, left tried first
    | Star(body: Re, greedy: bool)          // `body*` or `body*?`
    | Group(id: nat, body: Re)              // capturing group number id
    | Ahead(look: Re, positive: bool)       // `(?=look)` or `(?!look)`
    | Behind(look: Re, width: nat)          // `(?<=look)` for a look of fixed width
    | Boundary                              // `\b`
    | Start                                 // `^`
    | End                                   // `$`: the end, or just before a final '\n'

  /** One way of matching: where it ends and the groups captured on the way. */
  datatype Hit = Hit(end: nat, groups: map<nat, Span>)

  predicate InRanges(c: char, rs: seq<Range>) {
    exists k :: 0 <= k < |rs| && rs[k].lo <= c <= rs[k].hi
  }

  predicate IsBoundary(s: string, i: nat) requires i <= |s| {
    (i > 0 && IsWordChar(s[i - 1])) != (i < |s| && IsWordChar(s[i]))
  }

  predicate AtEnd(s: string, i: nat) requires i <= |s| {
    i == |s| || (i == |s| - 1 && s[i] == '\n')
  }

  predicate Within(hits: seq<Hit>, lo: nat, hi: nat) {
    forall k :: 0 <= k < |hits| ==> lo <= hits[k].end <= hi
  }

  /** All matches of r starting at i, in backtracking order. */
  function Match(r: Re, s: string, i: nat, g: map<nat, Span>): (hits: seq<Hit>)
    requires i <= |s|
    ensures Within(hits, i, |s|)
    decreases r, |s| - i, 1, 0
  {
    match r
    case Eps => [Hit(i, g)]
    case Set(rs, neg) => if i < |s| && InRanges(s[i], rs) != neg then [Hit(i + 1, g)] else []
    case AnyChar => if i < |s| && s[i] != '\n' then [Hit(i + 1, g)] else []
    case Cat(a, b) => CatAll(b, s, i, Match(a, s, i, g))
    case Alt(a, b) => Match(a, s, i, g) + Match(b, s, i, g)
    case Star(body, greedy) =>
      var more := StarAll(body, greedy, s, i, Advancing(Match(body, s, i, g), i));
      if greedy then more + [Hit(i, g)] else [Hit(i, g)] + more
    case Group(id, body) => Tag(Match(body, s, i, g), id, i)
    case Ahead(look, positive) => if (|Match(look, s, i, g)| > 0) == positive then [Hit(i, g)] else []
    case Behind(look, w) => if w <= i && EndsAt(Match(look, s, i - w, g), i) then [Hit(i, g)] else []
    case Boundary => if IsBoundary(s, i) then [Hit(i, g)] else []
    case Start => if i == 0 then [Hit(i, g)] else []
    case End => if AtEnd(s, i) then [Hit(i, g)] else []
  }

  /** Continues every hit of the first half of a `Cat` with the second half. */
  function CatAll(b: Re, s: string, i: nat, hits: seq<Hit>): (out: seq<Hit>)
    requires Within(hits, i, |s|)
    ensures Within(out, i, |s|)
    decreases b, |s| + 1, 0, |hits|
  {
    if |hits| == 0 then []
    else Match(b, s, hits[0].end, hits[0].groups) + CatAll(b, s, i, hits[1..])
  }

  /** Continues every non-empty iteration of a `Star` with further iterations. */
  function StarAll(body: Re, greedy: bool, s: string, i: nat, hits: seq<Hit>): (out: seq<Hit>)
    requires i <= |s|
    requires forall k :: 0 <= k < |hits| ==> i < hits[k].end <= |s|
    ensures Within(out, i, |s|)
    decreases Star(body, greedy), |s| - i, 0, |hits|
  {
    if |hits| == 0 then []
    else Match(Star(body, greedy), s, hits[0].end, hits[0].groups) + StarAll(body, greedy, s, i, hits[1..])
  }

  /** Python stops a repetition at an iteration that consumed nothing. */
  function Advancing(hits: seq<Hit>, i: nat): (out: seq<Hit>)
    ensures forall k :: 0 <= k < |out| ==> out[k].end > i
    ensures forall k :: 0 <= k < |out| ==> out[k] in hits
  {
    if |hits| == 0 then []
    else if hits[0].end > i then [hits[0]] + Advancing(hits[1..], i)
    else Advancing(hits[1..], i)
  }

  function Tag(hits: seq<Hit>, id: nat, i: nat): (out: seq<Hit>)
    ensures |out| == |hits|
    ensures forall k :: 0 <= k < |hits| ==> out[k] == Hit(hits[k].end, hits[k].groups[id := Span(i, hits[k].end)])
  {
    if |hits| == 0 then []
    else [Hit(hits[0].end, hits[0].groups[id := Span(i, hits[0].end)])] + Tag(hits[1..], id, i)
  }

  predicate EndsAt(hits: seq<Hit>, i: nat) {
    exists k :: 0 <= k < |hits| && hits[k].end == i
  }

  // ------------------------------------------------------------ searching

  /** `re.search` from position p: the leftmost start with a match, and that match. */
  function SearchFrom(r: Re, s: string, p: nat): (res: Option<(nat, Hit)>)
    requires p <= |s|
    ensures res.Some? ==> p <= res.value.0 <= res.value.1.end <= |s|
    decreases |s| - p
  {
    var hits := Match(r, s, p, map[]);
    if |hits| > 0 then Some((p, hits[0]))
    else if p == |s| then None
    else SearchFrom(r, s, p + 1)
  }

  function Search(r: Re, s: string): Option<(nat, Hit)> { SearchFrom(r, s, 0) }

  /** `re.match`: a match that starts at position 0. */
  function MatchAtStart(r: Re, s: string): Option<Hit> {
    var hits := Match(r, s, 0, map[]);
    if |hits| > 0 then Some(hits[0]) else None
  }

  predicate Found(r: Re, s: string) { Search(r, s).Some? }

  /** The text of a group of a successful match (the empty string if it did not take part). */
  function GroupText(s: string, h: Hit, id: nat): string {
    if id in h.groups && h.groups[id].start <= h.groups[id].end <= |s| then s[h.groups[id].start..h.groups[id].end] else ""
  }

  /** `re.finditer` from p: successive non-overlapping matches as (start, hit). */
  function FindAllFrom(r: Re, s: string, p: nat): (ms: seq<(nat, Hit)>)
    requires p <= |s|
    ensures forall k :: 0 <= k < |ms| ==> p <= ms[k].0 <= ms[k].1.end <= |s|
    decreases |s| - p
  {
    match SearchFrom(r, s, p)
    case None => []
    case Some((q, h)) =>
      if h.end > q then [(q, h)] + FindAllFrom(r, s, h.end)
      else if q < |s| then [(q, h)] + FindAllFrom(r, s, q + 1)
      else [(q, h)]
  }

  /** `re.findall` for a pattern without groups: the matched texts. */
  function FindAll(r: Re, s: string): seq<string> {
    var ms := FindAllFrom(r, s, 0);
    seq(|ms|, k requires 0 <= k < |ms| => s[ms[k].0..ms[k].1.end])
  }

  /** `re.findall` for a pattern whose one group is `id`: the group texts. */
  function FindAllGroup(r: Re, s: string, id: nat): seq<string> {
    var ms := FindAllFrom(r, s, 0);
    seq(|ms|, k requires 0 <= k < |ms| => GroupText(s, ms[k].1, id))
  }

  /** `re.sub(r, repl, s)` with a literal replacement. */
  function Sub(r: Re, s: string, repl: string): string { SubFrom(r, s, repl, 0) }

  function SubFrom(r: Re, s: string, repl: string, p: nat): string
    requires p <= |s|
    decreases |s| - p, 1
  {
    match SearchFrom(r, s, p)
    case None => s[p..]
    case Some((q, h)) => s[p..q] + repl + SubRest(r, s, repl, q, h)
  }

  /** What follows a match h at q: the rest of the text, or, after an empty
    * match, the next character and then the rest. */
  function SubRest(r: Re, s: string, repl: string, q: nat, h: Hit): string
    requires q <= h.end <= |s|
    decreases |s| - q, 0
  {
    if h.end > q then SubFrom(r, s, repl, h.end)
    else if q < |s| then [s[q]] + SubFrom(r, s, repl, q + 1)
    else ""
  }

  /** `re.split(r, s)` for a pattern without groups. */
  function SplitOn(r: Re, s: string): seq<string> { SplitFrom(r, s, 0, 0) }

  function SplitFrom(r: Re, s: string, p: nat, piece: nat): seq<string>
    requires piece <= p <= |s|
    decreases |s| - p
  {
    match SearchFrom(r, s, p)
    case None => [s[piece..]]
    case Some((q, h)) =>
      if h.end > q then [s[piece..q]] + SplitFrom(r, s, h.end, h.end)
      else if q < |s| then SplitFrom(r, s, q + 1, piece)
      else [s[piece..]]
  }

  // ------------------------------------------------------------ pattern vocabulary

  function Lit(c: char): Re { Set([Range(c, c)], false) }
  function Either(a: char, b: char): Re { Set([Range(a, a), Range(b, b)], false) }
  function Word(w: string): Re { if |w| == 0 then Eps else Cat(Lit(w[0]), Word(w[1..])) }
  function Plus(r: Re): Re { Cat(r, Star(r, true)) }
  function Opt(r: Re): Re { Alt(r, Eps) }
  /** `r{0,n}`, greedy. */
  function UpTo(r: Re, n: nat): Re { if n == 0 then Eps else Opt(Cat(r, UpTo(r, n - 1))) }
  /** `r{m,n}`, greedy. */
  function Between(r: Re, m: nat, n: nat): Re requires m <= n {
    if m == 0 then UpTo(r, n) else Cat(r, Between(r, m - 1, n - 1))
  }

  const Digit: Re := Set([Range('0', '9')], false)
  const Digits: Re := Plus(Digit)
  const Letter: Re := Set([Range('A', 'Z'), Range('a', 'z')], false)
  const Upper: Re := Set([Range('A', 'Z')], false)
  const Alnum: Re := Set([Range('A', 'Z'), Range('a', 'z'), Range('0', '9')], false)
  const SpaceSet: seq<Range> := [
    Range(' ', ' '), Range('\t', '\r'), Range('\U{1c}', '\U{1f}'), Range('\U{85}', '\U{85}'),
    Range('\U{a0}', '\U{a0}'), Range('\U{1680}', '\U{1680}'), Range('\U{2000}', '\U{200a}'),
    Range('\U{2028}', '\U{2029}'), Range('\U{202f}', '\U{202f}'), Range('\U{205f}', '\U{205f}'),
    Range('\U{3000}', '\U{3000}')]
  /** `\s*` */
  const Blanks: Re := Star(Set(SpaceSet, false), true)
  /** `\d+(?:\.\d+)?` */
  const Number: Re := Cat(Digits, Opt(Cat(Lit('.'), Digits)))

  // ------------------------------------------------------------ impossible matches

  /** Every match of r must read the character c. */
  predicate Needs(r: Re, c: char) {
    match r
    case Set(rs, neg) => !neg && |rs| == 1 && rs[0] == Range(c, c)
    case Cat(a, b) => Needs(a, c) || Needs(b, c)
    case Alt(a, b) => Needs(a, c) && Needs(b, c)
    case Group(_, body) => Needs(body, c)
    case Behind(look, _) => Needs(look, c)
    case Ahead(look, positive) => positive && Needs(look, c)
    case _ => false
  }

  /** A pattern that needs c cannot match a string without c. */
  lemma {:induction false} NeedsAbsent(r: Re, c: char, s: string, i: nat, g: map<nat, Span>)
    requires Needs(r, c) && !HasChar(s, c) && i <= |s|
    ensures Match(r, s, i, g) == []
    decreases r, 0
  {
    match r
    case Set(rs, neg) =>
      if i < |s| { assert s[i] != c; }
    case Cat(a, b) =>
      if Needs(a, c) {
        NeedsAbsent(a, c, s, i, g);
      } else {
        CatAllAbsent(b, c, s, i, Match(a, s, i, g));
      }
    case Alt(a, b) =>
      NeedsAbsent(a, c, s, i, g);
      NeedsAbsent(b, c, s, i, g);
    case Group(_, body) =>
      NeedsAbsent(body, c, s, i, g);
    case Behind(look, w) =>
      if w <= i { NeedsAbsent(look, c, s, i - w, g); }
    case Ahead(look, _) =>
      NeedsAbsent(look, c, s, i, g);
  }

  lemma {:induction false} CatAllAbsent(b: Re, c: char, s: string, i: nat, hits: seq<Hit>)
    requires Needs(b, c) && !HasChar(s, c) && Within(hits, i, |s|)
    ensures CatAll(b, s, i, hits) == []
    decreases b, 1, |hits|
  {
    if |hits| > 0 {
      NeedsAbsent(b, c, s, hits[0].end, hits[0].groups);
      CatAllAbsent(b, c, s, i, hits[1..]);
    }
  }

  /** No search can succeed for a pattern that needs a character the string lacks. */
  lemma {:induction false} SearchAbsent(r: Re, c: char, s: string, p: nat)
    requires Needs(r, c) && !HasChar(s, c) && p <= |s|
    ensures SearchFrom(r, s, p) == None
    decreases |s| - p
  {
    NeedsAbsent(r, c, s, p, map[]);
    if p < |s| { SearchAbsent(r, c, s, p + 1); }
  }

  /** Substituting a pattern that needs an absent character leaves the string alone. */
  lemma SubAbsent(r: Re, c: char, s: string, repl: string)
    requires Needs(r, c) && !HasChar(s, c)
    ensures Sub(r, s, repl) == s
  {
    SearchAbsent(r, c, s, 0);
  }

  // ------------------------------------------------------------ one-character patterns

  /** Every character satisfying p replaced by repl. */
  function MapReplace(s: string, p: char -> bool, repl: string): string {
    if |s| == 0 then "" else (if p(s[0]) then repl else [s[0]]) + MapReplace(s[1..], p, repl)
  }

  /** At every position r matches exactly when the character there satisfies p,
    * and its preferred match then consumes that one character. */
  predicate OneCharPattern(r: Re, s: string, p: char -> bool) {
    forall i :: 0 <= i <= |s| ==> OneCharAt(r, s, p, i)
  }

  predicate OneCharAt(r: Re, s: string, p: char -> bool, i: nat)
    requires i <= |s|
  {
    (|Match(r, s, i, map[])| > 0 <==> i < |s| && p(s[i]))
    && (|Match(r, s, i, map[])| > 0 ==> Match(r, s, i, map[])[0].end == i + 1)
  }

  /** Where the pattern does not match, substitution copies the character. */
  lemma SubFromSkip(r: Re, s: string, repl: string, q: nat)
    requires q < |s| && |Match(r, s, q, map[])| == 0
    ensures SubFrom(r, s, repl, q) == [s[q]] + SubFrom(r, s, repl, q + 1)
  {
    assert SearchFrom(r, s, q) == SearchFrom(r, s, q + 1);
    SubFromSameSearch(r, s, repl, q);
  }

  /** Two starts that find the same match substitute alike after the first character. */
  lemma SubFromSameSearch(r: Re, s: string, repl: string, q: nat)
    requires q < |s| && SearchFrom(r, s, q) == SearchFrom(r, s, q + 1)
    ensures SubFrom(r, s, repl, q) == [s[q]] + SubFrom(r, s, repl, q + 1)
  {
    match SearchFrom(r, s, q + 1)
    case None => SubFromNoMatch(r, s, repl, q);
    case Some((k, h)) => SubFromSameMatch(r, s, repl, q, k, h);
  }

  lemma SubFromNoMatch(r: Re, s: string, repl: string, q: nat)
    requires q < |s| && SearchFrom(r, s, q) == None && SearchFrom(r, s, q + 1) == None
    ensures SubFrom(r, s, repl, q) == [s[q]] + SubFrom(r, s, repl, q + 1)
  {
    assert SubFrom(r, s, repl, q) == s[q..];
    assert SubFrom(r, s, repl, q + 1) == s[q + 1..];
    assert s[q..] == [s[q]] + s[q + 1..];
  }

  lemma SubFromSameMatch(r: Re, s: string, repl: string, q: nat, k: nat, h: Hit)
    requires q < |s| && SearchFrom(r, s, q) == Some((k, h)) && SearchFrom(r, s, q + 1) == Some((k, h))
    ensures SubFrom(r, s, repl, q) == [s[q]] + SubFrom(r, s, repl, q + 1)
  {
    SubFromFound(r, s, repl, q, k, h);
    SubFromFound(r, s, repl, q + 1, k, h);
    SliceCons(s, q, k, repl + SubRest(r, s, repl, k, h));
  }

  /** Substitution from p when the search finds h at k. */
  lemma SubFromFound(r: Re, s: string, repl: string, p: nat, k: nat, h: Hit)
    requires p <= |s| && SearchFrom(r, s, p) == Some((k, h))
    ensures p <= k <= h.end <= |s|
    ensures SubFrom(r, s, repl, p) == s[p..k] + (repl + SubRest(r, s, repl, k, h))
  {
  }

  lemma SliceCons(s: string, q: nat, k: nat, rest: string)
    requires q < k <= |s|
    ensures s[q..k] + rest == [s[q]] + (s[q + 1..k] + rest)
  {
    assert s[q..k] == [s[q]] + s[q + 1..k];
  }

  /** Where the pattern matches one character, substitution replaces it. */
  lemma SubFromTake(r: Re, s: string, repl: string, q: nat)
    requires q < |s| && |Match(r, s, q, map[])| > 0 && Match(r, s, q, map[])[0].end == q + 1
    ensures SubFrom(r, s, repl, q) == repl + SubFrom(r, s, repl, q + 1)
  {
    var h := Match(r, s, q, map[])[0];
    assert SearchFrom(r, s, q) == Some((q, h));
    SubFromFound(r, s, repl, q, q, h);
    assert s[q..q] + (repl + SubRest(r, s, repl, q, h)) == repl + SubFrom(r, s, repl, q + 1);
  }

  lemma SubFromEnd(r: Re, s: string, repl: string)
    requires |Match(r, s, |s|, map[])| == 0
    ensures SubFrom(r, s, repl, |s|) == ""
  {
    assert SearchFrom(r, s, |s|) == None;
  }

  /** Substituting a one-character pattern replaces each matching character. */
  lemma {:induction false} SubOneChar(r: Re, s: string, p: char -> bool, repl: string, q: nat)
    requires OneCharPattern(r, s, p) && q <= |s|
    ensures SubFrom(r, s, repl, q) == MapReplace(s[q..], p, repl)
    decreases |s| - q
  {
    if q < |s| {
      SubOneChar(r, s, p, repl, q + 1);
      SubOneCharStep(r, s, p, repl, q);
      MapReplaceFrom(s, p, repl, q);
    } else {
      assert OneCharAt(r, s, p, q);
      SubFromEnd(r, s, repl);
    }
  }

  lemma MapReplaceFrom(s: string, p: char -> bool, repl: string, q: nat)
    requires q < |s|
    ensures MapReplace(s[q..], p, repl) == (if p(s[q]) then repl else [s[q]]) + MapReplace(s[q + 1..], p, repl)
  {
    assert s[q..][1..] == s[q + 1..];
  }

  /** One character of a one-character pattern: replaced or copied. */
  lemma SubOneCharStep(r: Re, s: string, p: char -> bool, repl: string, q: nat)
    requires OneCharPattern(r, s, p) && q < |s|
    ensures SubFrom(r, s, repl, q) == (if p(s[q]) then repl else [s[q]]) + SubFrom(r, s, repl, q + 1)
  {
    assert OneCharAt(r, s, p, q);
    if p(s[q]) {
      SubFromTake(r, s, repl, q);
    } else {
      SubFromSkip(r, s, repl, q);
    }
  }


  /** The replacement keeps the characters outside p and adds those of repl. */
  lemma {:induction false} MapReplaceChars(s: string, p: char -> bool, repl: string, c: char)
    ensures HasChar(MapReplace(s, p, repl), c) ==> HasChar(repl, c) || (HasChar(s, c) && !p(c))
  {
    if |s| > 0 {
      MapReplaceChars(s[1..], p, repl, c);
      var head := if p(s[0]) then repl else [s[0]];
      var r := MapReplace(s, p, repl);
      assert r == head + MapReplace(s[1..], p, repl);
      if HasChar(r, c) {
        var k :| 0 <= k < |r| && r[k] == c;
        if k >= |head| {
          assert MapReplace(s[1..], p, repl)[k - |head|] == c;
          if HasChar(s[1..], c) {
            var m :| 0 <= m < |s[1..]| && s[1..][m] == c;
            assert s[m + 1] == c;
          }
        } else if !p(s[0]) {
          assert s[0] == c;
        }
      }
    }
  }

  // ------------------------------------------------------------ what a match reads

  /** Every character of s[i..e] lies in the ranges. */
  predicate RunIn(s: string, i: nat, e: nat, rs: seq<Range>) {
    i <= e <= |s| && forall k :: i <= k < e ==> InRanges(s[k], rs)
  }

  /** A repeated character class reads only characters of the class. */
  lemma {:induction false} SetStarHits(rs: seq<Range>, greedy: bool, s: string, i: nat, g: map<nat, Span>)
    requires i <= |s|
    ensures forall h :: h in Match(Star(Set(rs, false), greedy), s, i, g) ==> RunIn(s, i, h.end, rs)
    decreases |s| - i, 1
  {
    var adv := Advancing(Match(Set(rs, false), s, i, g), i);
    forall k | 0 <= k < |adv| ensures adv[k].end == i + 1 && i < |s| && InRanges(s[i], rs) {
      assert adv[k] in Match(Set(rs, false), s, i, g);
    }
    SetStarAllHits(rs, greedy, s, i, adv);
  }

  lemma {:induction false} SetStarAllHits(rs: seq<Range>, greedy: bool, s: string, i: nat, hits: seq<Hit>)
    requires i <= |s| && (|hits| > 0 ==> i < |s| && InRanges(s[i], rs))
    requires forall k :: 0 <= k < |hits| ==> hits[k].end == i + 1
    ensures forall h :: h in StarAll(Set(rs, false), greedy, s, i, hits) ==> RunIn(s, i, h.end, rs)
    decreases |s| - i, 0, |hits|
  {
    if |hits| > 0 {
      SetStarHits(rs, greedy, s, i + 1, hits[0].groups);
      SetStarAllHits(rs, greedy, s, i, hits[1..]);
    }
  }

  /** A match of a concatenation continues some match of its first half. */
  lemma {:induction false} CatAllMember(b: Re, s: string, i: nat, hits: seq<Hit>, h: Hit)
    requires Within(hits, i, |s|) && h in CatAll(b, s, i, hits)
    ensures exists k :: 0 <= k < |hits| && h in Match(b, s, hits[k].end, hits[k].groups)
    decreases |hits|
  {
    if h !in Match(b, s, hits[0].end, hits[0].groups) {
      CatAllMember(b, s, i, hits[1..], h);
      var k :| 0 <= k < |hits[1..]| && h in Match(b, s, hits[1..][k].end, hits[1..][k].groups);
      assert hits[1..][k] == hits[k + 1];
    }
  }

  predicate AllDigitsIn(s: string, i: nat, e: nat) {
    i <= e <= |s| && forall k :: i <= k < e ==> IsDigit(s[k])
  }

  /** `\d+` reads one or more digits. */
  lemma DigitsHits(s: string, i: nat, g: map<nat, Span>, h: Hit)
    requires i <= |s| && h in Match(Digits, s, i, g)
    ensures i < h.end && AllDigitsIn(s, i, h.end)
  {
    var first := Match(Digit, s, i, g);
    assert Match(Digits, s, i, g) == CatAll(Star(Digit, true), s, i, first);
    CatAllMember(Star(Digit, true), s, i, first, h);
    var k :| 0 <= k < |first| && h in Match(Star(Digit, true), s, first[k].end, first[k].groups);
    DigitsHitVia(s, i, g, h, k);
  }

  /** A digit, then a run of digits read by the star. */
  lemma DigitsHitVia(s: string, i: nat, g: map<nat, Span>, h: Hit, k: nat)
    requires i <= |s| && k < |Match(Digit, s, i, g)|
    requires h in Match(Star(Digit, true), s, Match(Digit, s, i, g)[k].end, Match(Digit, s, i, g)[k].groups)
    ensures i < h.end && AllDigitsIn(s, i, h.end)
  {
    DigitHit(s, i, g, k);
    SetStarHits([Range('0', '9')], true, s, i + 1, Match(Digit, s, i, g)[k].groups);
    DigitRun(s, i, h.end);
  }

  /** A hit of one digit consumes one digit. */
  lemma DigitHit(s: string, i: nat, g: map<nat, Span>, k: nat)
    requires i <= |s| && k < |Match(Digit, s, i, g)|
    ensures i < |s| && IsDigit(s[i]) && Match(Digit, s, i, g)[k].end == i + 1
  {
    assert InRanges(s[i], [Range('0', '9')]);
  }

  /** A digit followed by a run of the digit range is a run of digits. */
  lemma DigitRun(s: string, i: nat, e: nat)
    requires i < |s| && IsDigit(s[i]) && RunIn(s, i + 1, e, [Range('0', '9')])
    ensures i < e && AllDigitsIn(s, i, e)
  {
    forall m | i < m < e ensures IsDigit(s[m]) {
      assert InRanges(s[m], [Range('0', '9')]);
    }
  }


  /** The text of a number: digits, then optionally '.' and digits. */
  predicate NumberShape(t: string) {
    var j := FindChar(t, '.');
    if j < 0 then |t| > 0 && AllDigits(t)
    else 0 < j < |t| - 1 && AllDigits(t[..j]) && AllDigits(t[j + 1..])
  }

  /** `float(t)` for the text of a number. */
  function NumberValue(t: string): (v: real)
    requires NumberShape(t)
    ensures v >= 0.0
  {
    var j := FindChar(t, '.');
    if j < 0 then DigitsValue(t) as real else DecimalValue(t[..j], t[j + 1..])
  }

  lemma NumberShapeOf(s: string, i: nat, e1: nat, e2: nat)
    requires i < e1 && AllDigitsIn(s, i, e1)
    requires e2 == e1 || (e1 + 1 < e2 && AllDigitsIn(s, e1 + 1, e2) && s[e1] == '.')
    ensures NumberShape(s[i..e2])
  {
    var t := s[i..e2];
    var j := FindChar(t, '.');
    if e2 == e1 {
      assert forall k :: 0 <= k < |t| ==> t[k] == s[i + k];
    } else {
      assert t[e1 - i] == '.';
      assert forall k :: 0 <= k < e1 - i ==> t[k] == s[i + k] && IsDigit(t[k]);
      assert j == e1 - i;
      var u := t[j + 1..];
      assert forall k :: 0 <= k < |u| ==> u[k] == s[e1 + 1 + k];
    }
  }

  /** `\.\d+` reads a dot and one or more digits. */
  lemma DottedHits(s: string, e: nat, g: map<nat, Span>, h: Hit)
    requires e <= |s| && h in Match(Cat(Lit('.'), Digits), s, e, g)
    ensures e + 1 < h.end && AllDigitsIn(s, e + 1, h.end) && s[e] == '.'
  {
    var dots := Match(Lit('.'), s, e, g);
    CatAllMember(Digits, s, e, dots, h);
    var m :| 0 <= m < |dots| && h in Match(Digits, s, dots[m].end, dots[m].groups);
    DotHit(s, e, g, m);
    DigitsHits(s, e + 1, dots[m].groups, h);
  }

  /** A hit of a literal dot consumes one dot. */
  lemma DotHit(s: string, e: nat, g: map<nat, Span>, m: nat)
    requires e <= |s| && m < |Match(Lit('.'), s, e, g)|
    ensures e < |s| && s[e] == '.' && Match(Lit('.'), s, e, g)[m].end == e + 1
  {
    assert InRanges(s[e], [Range('.', '.')]);
  }

  /** Every match of `\d+(?:\.\d+)?` reads the text of a number. */
  lemma NumberHits(s: string, i: nat, g: map<nat, Span>, h: Hit)
    requires i <= |s| && h in Match(Number, s, i, g)
    ensures NumberShape(s[i..h.end])
  {
    var tail := Opt(Cat(Lit('.'), Digits));
    var firsts := Match(Digits, s, i, g);
    CatAllMember(tail, s, i, firsts, h);
    var k :| 0 <= k < |firsts| && h in Match(tail, s, firsts[k].end, firsts[k].groups);
    NumberHitVia(s, i, g, firsts[k], h);
  }

  /** The digits h1, then h: the optional fraction after them. */
  lemma NumberHitVia(s: string, i: nat, g: map<nat, Span>, h1: Hit, h: Hit)
    requires i <= |s| && h1 in Match(Digits, s, i, g)
    requires h1.end <= |s| && h in Match(Opt(Cat(Lit('.'), Digits)), s, h1.end, h1.groups)
    ensures NumberShape(s[i..h.end])
  {
    DigitsHits(s, i, g, h1);
    var dotted := Match(Cat(Lit('.'), Digits), s, h1.end, h1.groups);
    assert Match(Opt(Cat(Lit('.'), Digits)), s, h1.end, h1.groups) == dotted + [Hit(h1.end, h1.groups)];
    if h in dotted {
      DottedHits(s, h1.end, h1.groups, h);
      NumberShapeOf(s, i, h1.end, h.end);
    } else {
      NumberShapeOf(s, i, h1.end, h1.end);
    }
  }

  /** `re.search` reports one of the matches at the position it found. */
  lemma SearchHit(r: Re, s: string, p: nat)
    requires p <= |s| && SearchFrom(r, s, p).Some?
    ensures SearchFrom(r, s, p).value.1 in Match(r, s, SearchFrom(r, s, p).value.0, map[])
    decreases |s| - p
  {
    if |Match(r, s, p, map[])| == 0 {
      SearchHit(r, s, p + 1);
    }
  }

  /** Each match `re.finditer` reports is a match at its start. */
  /** Every (start, hit) pair is a match of r at its start. */
  predicate HitsMatch(r: Re, s: string, ms: seq<(nat, Hit)>) {
    forall k :: 0 <= k < |ms| ==> ms[k].0 <= |s| && ms[k].1 in Match(r, s, ms[k].0, map[])
  }

  lemma {:induction false} FindAllHits(r: Re, s: string, p: nat)
    requires p <= |s|
    ensures HitsMatch(r, s, FindAllFrom(r, s, p))
    decreases |s| - p, 2
  {
    var found := SearchFrom(r, s, p);
    if found.Some? {
      SearchHit(r, s, p);
      FindAllAfter(r, s, p, found.value.0, found.value.1);
    } else {
      assert FindAllFrom(r, s, p) == [];
    }
  }

  /** The matches from p when the first one is h at q. */
  lemma {:induction false} FindAllAfter(r: Re, s: string, p: nat, q: nat, h: Hit)
    requires p <= |s| && SearchFrom(r, s, p) == Some((q, h)) && h in Match(r, s, q, map[])
    ensures HitsMatch(r, s, FindAllFrom(r, s, p))
    decreases |s| - p, 1
  {
    if h.end > q {
      FindAllAfterAdvance(r, s, p, q, h);
    } else if q < |s| {
      FindAllAfterEmpty(r, s, p, q, h);
    } else {
      FindAllAfterLast(r, s, p, q, h);
    }
  }

  /** An empty match at the end of the text is the last one. */
  lemma FindAllAfterLast(r: Re, s: string, p: nat, q: nat, h: Hit)
    requires p <= |s| && SearchFrom(r, s, p) == Some((q, h)) && h in Match(r, s, q, map[]) && h.end <= q && q >= |s|
    ensures HitsMatch(r, s, FindAllFrom(r, s, p))
  {
    assert FindAllFrom(r, s, p) == [(q, h)];
    HitsMatchCons(r, s, (q, h), []);
    assert [(q, h)] + [] == [(q, h)];
  }

  /** A non-empty match: the search resumes at its end. */
  lemma {:induction false} FindAllAfterAdvance(r: Re, s: string, p: nat, q: nat, h: Hit)
    requires p <= |s| && SearchFrom(r, s, p) == Some((q, h)) && h in Match(r, s, q, map[]) && h.end > q
    ensures HitsMatch(r, s, FindAllFrom(r, s, p))
    decreases |s| - p, 0
  {
    FindAllHits(r, s, h.end);
    FindAllFromStep(r, s, p, q, h);
    HitsMatchCons(r, s, (q, h), FindAllFrom(r, s, h.end));
  }

  /** An empty match before the end: the search resumes one character later. */
  lemma {:induction false} FindAllAfterEmpty(r: Re, s: string, p: nat, q: nat, h: Hit)
    requires p <= |s| && SearchFrom(r, s, p) == Some((q, h)) && h in Match(r, s, q, map[]) && h.end <= q < |s|
    ensures HitsMatch(r, s, FindAllFrom(r, s, p))
    decreases |s| - p, 0
  {
    FindAllHits(r, s, q + 1);
    FindAllFromStep(r, s, p, q, h);
    HitsMatchCons(r, s, (q, h), FindAllFrom(r, s, q + 1));
  }

  /** `re.finditer` after a match h at q: that match, then the matches from
    * its end, or from the next character after an empty match. */
  lemma FindAllFromStep(r: Re, s: string, p: nat, q: nat, h: Hit)
    requires p <= |s| && SearchFrom(r, s, p) == Some((q, h))
    ensures h.end > q ==> FindAllFrom(r, s, p) == [(q, h)] + FindAllFrom(r, s, h.end)
    ensures h.end <= q < |s| ==> FindAllFrom(r, s, p) == [(q, h)] + FindAllFrom(r, s, q + 1)
  {
  }

  lemma HitsMatchCons(r: Re, s: string, m: (nat, Hit), ms: seq<(nat, Hit)>)
    requires m.0 <= |s| && m.1 in Match(r, s, m.0, map[]) && HitsMatch(r, s, ms)
    ensures HitsMatch(r, s, [m] + ms)
  {
    var all := [m] + ms;
    forall k | 0 <= k < |all|
      ensures all[k].0 <= |s| && all[k].1 in Match(r, s, all[k].0, map[])
    {
      if k > 0 {
        assert all[k] == ms[k - 1];
      }
    }
  }


  /** `re.findall(r"\d+(?:\.\d+)?", s)` yields number texts only. */
  lemma FindAllNumbers(s: string)
    ensures forall k :: 0 <= k < |FindAll(Number, s)| ==> NumberShape(FindAll(Number, s)[k])
  {
    var ms := FindAllFrom(Number, s, 0);
    FindAllHits(Number, s, 0);
    forall k | 0 <= k < |ms| ensures NumberShape(s[ms[k].0..ms[k].1.end]) {
      NumberHits(s, ms[k].0, map[], ms[k].1);
    }
  }

  // ------------------------------------------------------------ captured groups

  /** The group numbers a pattern captures (a lookaround keeps none). */
  function Ids(r: Re): set<nat> {
    match r
    case Cat(a, b) => Ids(a) + Ids(b)
    case Alt(a, b) => Ids(a) + Ids(b)
    case Star(body, _) => Ids(body)
    case Group(id, body) => {id} + Ids(body)
    case _ => {}
  }

  /** Group id of h is as it was in g. */
  predicate KeptIn(h: Hit, g: map<nat, Span>, id: nat) {
    (id in h.groups <==> id in g) && (id in g ==> h.groups[id] == g[id])
  }

  /** Matching a pattern that does not capture group id leaves that group alone. */
  lemma {:induction false} MatchKeeps(r: Re, s: string, i: nat, g: map<nat, Span>, id: nat)
    requires i <= |s| && id !in Ids(r)
    ensures forall h :: h in Match(r, s, i, g) ==> KeptIn(h, g, id)
    decreases r, |s| - i, 1, 0
  {
    match r
    case Cat(a, b) =>
      var hits := Match(a, s, i, g);
      MatchKeeps(a, s, i, g, id);
      CatAllKeeps(b, s, i, hits, g, id);
    case Alt(a, b) =>
      MatchKeeps(a, s, i, g, id);
      MatchKeeps(b, s, i, g, id);
    case Star(body, greedy) =>
      var adv := Advancing(Match(body, s, i, g), i);
      MatchKeeps(body, s, i, g, id);
      StarAllKeeps(body, greedy, s, i, adv, g, id);
    case Group(j, body) =>
      MatchKeeps(body, s, i, g, id);
      TagKeeps(Match(body, s, i, g), j, i, g, id);
    case _ =>
  }

  /** Tagging group j leaves every other group as it was. */
  lemma TagKeeps(inner: seq<Hit>, j: nat, i: nat, g: map<nat, Span>, id: nat)
    requires id != j && forall h :: h in inner ==> KeptIn(h, g, id)
    ensures forall h :: h in Tag(inner, j, i) ==> KeptIn(h, g, id)
  {
    forall h | h in Tag(inner, j, i) ensures KeptIn(h, g, id) {
      var k :| 0 <= k < |inner| && h == Tag(inner, j, i)[k];
      assert KeptIn(inner[k], g, id);
    }
  }

  lemma {:induction false} CatAllKeeps(b: Re, s: string, i: nat, hits: seq<Hit>, g: map<nat, Span>, id: nat)
    requires Within(hits, i, |s|) && id !in Ids(b)
    requires forall k :: 0 <= k < |hits| ==> KeptIn(hits[k], g, id)
    ensures forall h :: h in CatAll(b, s, i, hits) ==> KeptIn(h, g, id)
    decreases b, |s| + 1, 0, |hits|
  {
    if |hits| > 0 {
      MatchKeeps(b, s, hits[0].end, hits[0].groups, id);
      CatAllKeeps(b, s, i, hits[1..], g, id);
    }
  }

  lemma {:induction false} StarAllKeeps(body: Re, greedy: bool, s: string, i: nat, hits: seq<Hit>, g: map<nat, Span>, id: nat)
    requires i <= |s| && id !in Ids(body)
    requires forall k :: 0 <= k < |hits| ==> i < hits[k].end <= |s| && KeptIn(hits[k], g, id)
    ensures forall h :: h in StarAll(body, greedy, s, i, hits) ==> KeptIn(h, g, id)
    decreases Star(body, greedy), |s| - i, 0, |hits|
  {
    if |hits| > 0 {
      MatchKeeps(Star(body, greedy), s, hits[0].end, hits[0].groups, id);
      StarAllKeeps(body, greedy, s, i, hits[1..], g, id);
    }
  }

  /** r reads, after some parts that may capture anything, a group id around
    * `\d+(?:\.\d+)?` that nothing later captures again. */
  predicate NumberGroupIn(r: Re, id: nat) {
    match r
    case Cat(a, b) => (a == Group(id, Number) && id !in Ids(b)) || NumberGroupIn(b, id)
    case _ => false
  }

  /** In every match of such a pattern the group holds the text of a number. */
  lemma {:induction false} NumberGroupHits(r: Re, s: string, i: nat, g: map<nat, Span>, id: nat)
    requires i <= |s| && NumberGroupIn(r, id)
    ensures forall h :: h in Match(r, s, i, g) ==> NumberShape(GroupText(s, h, id))
    decreases r
  {
    var a, b := r.first, r.second;
    var firsts := Match(a, s, i, g);
    forall h | h in Match(r, s, i, g) ensures NumberShape(GroupText(s, h, id)) {
      CatAllMember(b, s, i, firsts, h);
      var k :| 0 <= k < |firsts| && h in Match(b, s, firsts[k].end, firsts[k].groups);
      if a == Group(id, Number) && id !in Ids(b) {
        var inner := Match(Number, s, i, g);
        assert firsts[k] == Hit(inner[k].end, inner[k].groups[id := Span(i, inner[k].end)]);
        NumberHits(s, i, g, inner[k]);
        MatchKeeps(b, s, firsts[k].end, firsts[k].groups, id);
      } else {
        NumberGroupHits(b, s, firsts[k].end, firsts[k].groups, id);
      }
    }
  }

  /** `float(m.group(id))` for the match `re.search` finds, when that group
    * always holds a number. */
  function SearchedNumber(r: Re, s: string, id: nat): (v: real)
    requires Search(r, s).Some? && NumberGroupIn(r, id)
    ensures v >= 0.0
  {
    var q := Search(r, s).value.0;
    var h := Search(r, s).value.1;
    SearchHit(r, s, 0);
    NumberGroupHits(r, s, q, map[], id);
    NumberValue(GroupText(s, h, id))
  }

  /** A pattern that starts with a character class matches at least one character. */
  lemma FirstSetHits(rs: seq<Range>, neg: bool, b: Re, s: string, i: nat, g: map<nat, Span>)
    requires i <= |s|
    ensures forall h :: h in Match(Cat(Set(rs, neg), b), s, i, g) ==> i < h.end
  {
    var firsts := Match(Set(rs, neg), s, i, g);
    forall h | h in Match(Cat(Set(rs, neg), b), s, i, g) ensures i < h.end {
      CatAllMember(b, s, i, firsts, h);
    }
  }

  // ------------------------------------------------------------ matches that exist

  /** Continuing one hit of the first half continues the concatenation. */
  lemma {:induction false} CatAllContains(b: Re, s: string, i: nat, hits: seq<Hit>, k: nat, h: Hit)
    requires Within(hits, i, |s|) && k < |hits| && h in Match(b, s, hits[k].end, hits[k].groups)
    ensures h in CatAll(b, s, i, hits)
    decreases k
  {
    if k > 0 {
      assert hits[1..][k - 1] == hits[k];
      CatAllContains(b, s, i, hits[1..], k - 1, h);
    }
  }

  /** A repeated character class can stop after any run of class characters. */
  lemma {:induction false} SetStarComplete(rs: seq<Range>, greedy: bool, s: string, i: nat, e: nat, g: map<nat, Span>)
    requires RunIn(s, i, e, rs)
    ensures Hit(e, g) in Match(Star(Set(rs, false), greedy), s, i, g)
    decreases e - i
  {
    if e > i {
      assert InRanges(s[i], rs);
      SetStarComplete(rs, greedy, s, i + 1, e, g);
      SetStarStep(rs, greedy, s, i, Hit(e, g), g);
    }
  }

  /** One character of the class at i: whatever the star matches from i + 1 it matches from i. */
  lemma SetStarStep(rs: seq<Range>, greedy: bool, s: string, i: nat, x: Hit, g: map<nat, Span>)
    requires i < |s| && InRanges(s[i], rs)
    requires x in Match(Star(Set(rs, false), greedy), s, i + 1, g)
    ensures x in Match(Star(Set(rs, false), greedy), s, i, g)
  {
    var body := Set(rs, false);
    var one := Match(body, s, i, g);
    assert one == [Hit(i + 1, g)];
    assert Advancing(one, i) == one by {
      assert one[1..] == [] && one[0].end > i;
      assert Advancing(one[1..], i) == [];
    }
    var more := StarAll(body, greedy, s, i, one);
    assert more == Match(Star(body, greedy), s, i + 1, g) + StarAll(body, greedy, s, i, one[1..]);
    assert x in more;
  }
}
