/** Shared vocabulary for the whole model: optional values, Python-style
  * character classes and string operations, a stable sort, Python's
  * round-half-to-even and decimal number parsing. */
module Text {

  datatype Option<T> = None | Some(value: T)

  // ---------------------------------------------------------------- characters

  predicate IsDigit(c: char) { '0' <= c <= '9' }
  predicate IsUpper(c: char) { 'A' <= c <= 'Z' }
  predicate IsLower(c: char) { 'a' <= c <= 'z' }
  predicate IsLetter(c: char) { IsUpper(c) || IsLower(c) }
  predicate IsAlnum(c: char) { IsLetter(c) || IsDigit(c) }

  /** The range U+4E00..U+9FA5 that the application's patterns write as `一-龥`. */
  predicate IsHan(c: char) { '\U{4e00}' <= c <= '\U{9fa5}' }

  /** CJK ideographs (unified, extension A, compatibility): Python counts them as letters. */
  predicate IsIdeograph(c: char) {
    '\U{3400}' <= c <= '\U{4dbf}' || '\U{4e00}' <= c <= '\U{9fff}' || '\U{f900}' <= c <= '\U{faff}'
  }

  /** Latin-1 letters (U+00C0..U+00FF without the two operators). */
  predicate IsLatin1Letter(c: char) { '\U{00c0}' <= c <= '\U{00ff}' && c != '\U{00d7}' && c != '\U{00f7}' }

  /** Full-width Latin letters and digits. */
  predicate IsFullWidthAlnum(c: char) {
    '\U{ff10}' <= c <= '\U{ff19}' || '\U{ff21}' <= c <= '\U{ff3a}' || '\U{ff41}' <= c <= '\U{ff5a}'
  }

  /** Python's `str.isalpha` on the scripts this application meets. */
  predicate IsAlpha(c: char) {
    IsLetter(c) || IsIdeograph(c) || IsLatin1Letter(c) || ('\U{ff21}' <= c <= '\U{ff3a}' || '\U{ff41}' <= c <= '\U{ff5a}')
  }

  /** Python's `\w` (alphanumeric or underscore) on the same scripts. */
  predicate IsWordChar(c: char) {
    IsAlnum(c) || c == '_' || IsIdeograph(c) || IsLatin1Letter(c) || IsFullWidthAlnum(c)
  }

  /** The characters Python's `str.strip()` and `\s` treat as white space. */
  predicate IsSpace(c: char) {
    c == ' ' || '\t' <= c <= '\r' || '\U{1c}' <= c <= '\U{1f}' || c == '\U{85}' || c == '\U{a0}'
    || c == '\U{1680}' || '\U{2000}' <= c <= '\U{200a}' || c == '\U{2028}' || c == '\U{2029}'
    || c == '\U{202f}' || c == '\U{205f}' || c == '\U{3000}'
  }

  predicate AllDigits(s: string) { forall i :: 0 <= i < |s| ==> IsDigit(s[i]) }

  function LowerChar(c: char): char { if IsUpper(c) then (c as int + 32) as char else c }
  function UpperChar(c: char): char { if IsLower(c) then (c as int - 32) as char else c }

  /** `str.lower()` on ASCII letters. */
  function Lower(s: string): (r: string)
    ensures |r| == |s| && forall i :: 0 <= i < |s| ==> r[i] == LowerChar(s[i])
  {
    seq(|s|, i requires 0 <= i < |s| => LowerChar(s[i]))
  }

  /** `str.upper()` on ASCII letters. */
  function Upper(s: string): (r: string)
    ensures |r| == |s| && forall i :: 0 <= i < |s| ==> r[i] == UpperChar(s[i])
  {
    seq(|s|, i requires 0 <= i < |s| => UpperChar(s[i]))
  }

  // ---------------------------------------------------------------- substrings

  predicate IsPrefix(p: string, s: string) { |p| <= |s| && s[..|p|] == p }
  predicate IsSuffix(p: string, s: string) { |p| <= |s| && s[|s| - |p|..] == p }

  /** Python's `needle in hay`. */
  predicate Contains(hay: string, needle: string) {
    exists i | 0 <= i <= |hay| - |needle| :: OccursAt(hay, needle, i)
  }

  /** needle occurs in hay starting at index i. */
  predicate OccursAt(hay: string, needle: string, i: int) {
    0 <= i <= |hay| - |needle| && hay[i..i + |needle|] == needle
  }

  predicate HasChar(s: string, c: char) { exists i :: 0 <= i < |s| && s[i] == c }

  /** `any(w in hay for w in words)`. */
  predicate ContainsAny(hay: string, words: seq<string>) {
    exists k :: 0 <= k < |words| && Contains(hay, words[k])
  }

  lemma ContainsWitness(hay: string, needle: string, i: int)
    requires OccursAt(hay, needle, i)
    ensures Contains(hay, needle)
  {
  }

  /** A word without spaces occurs in `a + " " + b` exactly when it occurs
    * in a or in b: no occurrence can straddle the joining space. */
  lemma ContainsJoined(a: string, b: string, w: string)
    requires |w| > 0 && !HasChar(w, ' ')
    ensures Contains(a + " " + b, w) <==> Contains(a, w) || Contains(b, w)
  {
    var p := a + " " + b;
    if Contains(p, w) {
      var i :| 0 <= i <= |p| - |w| && OccursAt(p, w, i);
      if i + |w| <= |a| {
        assert a[i..i + |w|] == p[i..i + |w|];
        assert OccursAt(a, w, i);
      } else if i > |a| {
        var k := i - |a| - 1;
        assert p[|a| + 1..] == b;
        assert p[i..i + |w|] == p[|a| + 1..][k..k + |w|];
        assert b[k..k + |w|] == p[i..i + |w|];
        assert OccursAt(b, w, k);
      } else {
        assert p[|a|] == ' ';
        WindowHas(p, w, i, |a|);
        assert false;
      }
    }
    if Contains(a, w) {
      var i :| 0 <= i <= |a| - |w| && OccursAt(a, w, i);
      assert p[i..i + |w|] == a[i..i + |w|];
      assert OccursAt(p, w, i);
    }
    if Contains(b, w) {
      var k :| 0 <= k <= |b| - |w| && OccursAt(b, w, k);
      var i := k + |a| + 1;
      assert p[i..i + |w|] == b[k..k + |w|];
      assert OccursAt(p, w, i);
    }
  }

  /** A character inside an occurrence of w is a character of w. */
  lemma WindowHas(p: string, w: string, i: int, k: int)
    requires OccursAt(p, w, i) && i <= k < i + |w|
    ensures HasChar(w, p[k])
  {
    assert w[k - i] == p[i..i + |w|][k - i];
  }

  predicate SpaceFreeWords(words: seq<string>) {
    forall k :: 0 <= k < |words| ==> |words[k]| > 0 && !HasChar(words[k], ' ')
  }

  /** `ContainsJoined` for a list of words. */
  lemma ContainsAnyJoined(a: string, b: string, words: seq<string>)
    requires SpaceFreeWords(words)
    ensures ContainsAny(a + " " + b, words) <==> ContainsAny(a, words) || ContainsAny(b, words)
  {
    forall k | 0 <= k < |words|
      ensures Contains(a + " " + b, words[k]) <==> Contains(a, words[k]) || Contains(b, words[k])
    {
      ContainsJoined(a, b, words[k]);
    }
  }

  /** A string containing one of the words contains anything they all contain. */
  lemma ContainsTransitive(hay: string, w: string, core: string, j: int)
    requires Contains(hay, w) && OccursAt(w, core, j)
    ensures Contains(hay, core)
  {
    var i :| 0 <= i <= |hay| - |w| && OccursAt(hay, w, i);
    forall m | 0 <= m < |core| ensures hay[i + j + m] == core[m] {
      assert hay[i + j + m] == hay[i..i + |w|][j + m] == w[j + m] == w[j..j + |core|][m];
    }
    assert hay[i + j..i + j + |core|] == core;
    assert OccursAt(hay, core, i + j);
  }

  /** `Strip` is idempotent. */
  lemma StripIdempotent(s: string)
    ensures Strip(Strip(s)) == Strip(s)
  {
    StripNoop(Strip(s));
  }

  /** `s.find(c)` for one character: the lowest index, or -1. */
  function FindChar(s: string, c: char): (r: int)
    ensures -1 <= r < |s|
    ensures r >= 0 ==> s[r] == c && forall j :: 0 <= j < r ==> s[j] != c
    ensures r == -1 ==> forall j :: 0 <= j < |s| ==> s[j] != c
  {
    if |s| == 0 then -1
    else if s[0] == c then 0
    else var k := FindChar(s[1..], c); if k == -1 then -1 else k + 1
  }

  /** `s.rfind(c)` for one character: the highest index, or -1. */
  function RFindChar(s: string, c: char): (r: int)
    ensures -1 <= r < |s|
    ensures r >= 0 ==> s[r] == c && forall j :: r < j < |s| ==> s[j] != c
    ensures r == -1 ==> forall j :: 0 <= j < |s| ==> s[j] != c
  {
    if |s| == 0 then -1
    else if s[|s| - 1] == c then |s| - 1
    else RFindChar(s[..|s| - 1], c)
  }

  /** `s.rsplit(c, 1)[-1]`: the text after the last c, or all of s without one. */
  function AfterLast(s: string, c: char): (r: string)
    ensures IsSuffix(r, s) && !HasChar(r, c)
    ensures |r| < |s| ==> s[|s| - |r| - 1] == c
  {
    s[RFindChar(s, c) + 1..]
  }

  /** `s.replace(a, b)` for single characters. */
  function ReplaceChar(s: string, a: char, b: char): (r: string)
    ensures |r| == |s|
    ensures forall i :: 0 <= i < |s| ==> r[i] == (if s[i] == a then b else s[i])
  {
    seq(|s|, i requires 0 <= i < |s| => if s[i] == a then b else s[i])
  }

  /** `s.replace(c, "")`. */
  function RemoveChar(s: string, c: char): (r: string)
    ensures |r| <= |s|
    ensures forall i :: 0 <= i < |r| ==> r[i] != c
  {
    if |s| == 0 then ""
    else if s[|s| - 1] == c then RemoveChar(s[..|s| - 1], c)
    else RemoveChar(s[..|s| - 1], c) + [s[|s| - 1]]
  }

  /** `s.lstrip()` with Python's white space. */
  function LStrip(s: string): (r: string)
    ensures IsSuffix(r, s)
    ensures |r| > 0 ==> !IsSpace(r[0])
    ensures forall i :: 0 <= i < |s| - |r| ==> IsSpace(s[i])
  {
    if |s| > 0 && IsSpace(s[0]) then LStrip(s[1..]) else s
  }

  /** `s.rstrip()` with Python's white space. */
  function RStrip(s: string): (r: string)
    ensures IsPrefix(r, s)
    ensures |r| > 0 ==> !IsSpace(r[|r| - 1])
    ensures forall i :: |r| <= i < |s| ==> IsSpace(s[i])
  {
    if |s| > 0 && IsSpace(s[|s| - 1]) then RStrip(s[..|s| - 1]) else s
  }

  /** `s.strip()`. */
  function Strip(s: string): (r: string)
    ensures |r| > 0 ==> !IsSpace(r[0]) && !IsSpace(r[|r| - 1])
    ensures |r| <= |s|
  {
    RStrip(LStrip(s))
  }

  /** Stripping a string that already has no white space at its ends changes nothing. */
  lemma StripNoop(s: string)
    requires |s| > 0 ==> !IsSpace(s[0]) && !IsSpace(s[|s| - 1])
    ensures Strip(s) == s
  {
  }

  /** The stripped string is a slice of the original. */
  lemma StripIsSlice(s: string) returns (i: int, j: int)
    ensures 0 <= i <= j <= |s| && Strip(s) == s[i..j]
  {
    var l := LStrip(s);
    assert IsSuffix(l, s);
    i := |s| - |l|;
    assert s[i..] == l;
    var r := RStrip(l);
    assert IsPrefix(r, l);
    assert l[..|r|] == r;
    j := i + |r|;
    assert Strip(s) == r;
    var a, b := s[i..][..|r|], s[i..j];
    forall m | 0 <= m < |r| ensures a[m] == b[m] {
      assert a[m] == s[i + m] == b[m];
    }
    assert a == b;
  }

  /** `s.lstrip(c)` for one character. */
  function LStripChar(s: string, c: char): (r: string)
    ensures IsSuffix(r, s)
    ensures |r| > 0 ==> r[0] != c
  {
    if |s| > 0 && s[0] == c then LStripChar(s[1..], c) else s
  }

  // ---------------------------------------------------------------- split / join

  /** `s.split(sep)` with a one-character separator (never empty, keeps empty fields). */
  function Split(s: string, sep: char): (parts: seq<string>)
    ensures |parts| > 0
  {
    var i := FindChar(s, sep);
    if i < 0 then [s] else [s[..i]] + Split(s[i + 1..], sep)
  }

  /** `sep.join(parts)`. */
  function Join(parts: seq<string>, sep: string): string {
    if |parts| == 0 then ""
    else if |parts| == 1 then parts[0]
    else parts[0] + sep + Join(parts[1..], sep)
  }

  /** `"".join(parts)`. */
  function Concat(parts: seq<string>): string {
    if |parts| == 0 then "" else Concat(parts[..|parts| - 1]) + parts[|parts| - 1]
  }

  lemma {:induction false} ConcatAppend(a: seq<string>, b: seq<string>)
    ensures Concat(a + b) == Concat(a) + Concat(b)
  {
    if |b| == 0 {
      assert a + b == a;
    } else {
      var init, last := b[..|b| - 1], b[|b| - 1];
      assert (a + b)[..|a + b| - 1] == a + init;
      assert (a + b)[|a + b| - 1] == last;
      ConcatAppend(a, init);
      calc {
        Concat(a + b);
        Concat(a + init) + last;
        Concat(a) + Concat(init) + last;
        Concat(a) + (Concat(init) + last);
      }
    }
  }

  /** Splitting a joined list gives the list back when no part holds the separator. */
  lemma {:induction false} SplitJoin(parts: seq<string>, sep: char)
    requires |parts| > 0
    requires forall k :: 0 <= k < |parts| ==> !HasChar(parts[k], sep)
    ensures Split(Join(parts, [sep]), sep) == parts
  {
    var p := parts[0];
    if |parts| == 1 {
      assert FindChar(p, sep) == -1;
    } else {
      var s := Join(parts, [sep]);
      assert s == p + [sep] + Join(parts[1..], [sep]);
      assert FindChar(s, sep) == |p| by {
        assert s[|p|] == sep;
        forall j | 0 <= j < |p| ensures s[j] != sep {
          assert s[j] == p[j];
        }
        FindFirst(s, sep, |p|);
      }
      assert s[..|p|] == p;
      assert s[|p| + 1..] == Join(parts[1..], [sep]);
      SplitJoin(parts[1..], sep);
    }
  }

  /** FindChar returns the first occurrence that the caller has identified. */
  lemma FindFirst(s: string, c: char, k: int)
    requires 0 <= k < |s| && s[k] == c
    requires forall j :: 0 <= j < k ==> s[j] != c
    ensures FindChar(s, c) == k
  {
  }

  /** Joining the fields of a split with the separator gives the string back. */
  lemma {:induction false} JoinSplit(s: string, sep: char)
    ensures Join(Split(s, sep), [sep]) == s
    decreases |s|
  {
    var i := FindChar(s, sep);
    if i >= 0 {
      JoinSplit(s[i + 1..], sep);
      SplitAt(s, sep, i);
      JoinSplitStep(s, sep, i);
    }
  }

  lemma JoinSplitStep(s: string, sep: char, i: int)
    requires 0 <= i < |s| && s[i] == sep
    requires Split(s, sep) == [s[..i]] + Split(s[i + 1..], sep)
    requires Join(Split(s[i + 1..], sep), [sep]) == s[i + 1..]
    ensures Join(Split(s, sep), [sep]) == s
  {
    JoinAround(s[..i], sep, s[i + 1..], Split(s[i + 1..], sep));
    assert s == s[..i] + [sep] + s[i + 1..];
  }

  lemma JoinAround(head: string, sep: char, tail: string, rest: seq<string>)
    requires |rest| > 0 && Join(rest, [sep]) == tail
    ensures Join([head] + rest, [sep]) == head + [sep] + tail
  {
    JoinCons(head, rest, [sep]);
  }

  /** No part holds the separator. */
  lemma {:induction false} SplitPartsFree(s: string, sep: char)
    ensures var parts := Split(s, sep); forall k :: 0 <= k < |parts| ==> !HasChar(parts[k], sep)
    decreases |s|
  {
    var i := FindChar(s, sep);
    if i >= 0 {
      SplitPartsFree(s[i + 1..], sep);
      SplitAt(s, sep, i);
    }
  }

  lemma {:induction false} SplitAt(s: string, sep: char, i: int)
    requires 0 <= i < |s| && i == FindChar(s, sep)
    ensures Split(s, sep) == [s[..i]] + Split(s[i + 1..], sep)
  {
    var head, tail := s[..i], s[i + 1..];
    assert Split(s, sep) == [head] + Split(tail, sep);
  }

  lemma JoinCons(p: string, rest: seq<string>, sep: string)
    requires |rest| > 0
    ensures Join([p] + rest, sep) == p + sep + Join(rest, sep)
  {
    assert ([p] + rest)[1..] == rest;
  }

  // ---------------------------------------------------------------- numbers

  function DigitValue(c: char): nat requires IsDigit(c) { c as int - '0' as int }

  /** `int(s)` for a string of ASCII digits. */
  function DigitsValue(s: string): nat
    requires AllDigits(s)
  {
    if |s| == 0 then 0 else DigitsValue(s[..|s| - 1]) * 10 + DigitValue(s[|s| - 1])
  }

  function Pow10(n: nat): (r: nat) ensures r >= 1 { if n == 0 then 1 else 10 * Pow10(n - 1) }

  /** A digit string has a value below 10^length. */
  lemma {:induction false} DigitsValueBound(s: string)
    requires AllDigits(s)
    ensures DigitsValue(s) < Pow10(|s|)
  {
    if |s| > 0 {
      DigitsValueBound(s[..|s| - 1]);
    }
  }

  /** `float("<intPart>.<fracPart>")` on digit strings, computed exactly. */
  function DecimalValue(intPart: string, fracPart: string): (r: real)
    requires AllDigits(intPart) && AllDigits(fracPart)
    ensures DigitsValue(intPart) as real <= r < DigitsValue(intPart) as real + 1.0
  {
    DigitsValueBound(fracPart);
    FractionBelowOne(DigitsValue(fracPart), Pow10(|fracPart|));
    DigitsValue(intPart) as real + DigitsValue(fracPart) as real / Pow10(|fracPart|) as real
  }

  lemma FractionBelowOne(a: nat, b: nat)
    requires a < b
    ensures 0.0 <= a as real / b as real < 1.0
  {
    var q := a as real / b as real;
    assert q * b as real == a as real;
  }

  function DigitChar(d: nat): char requires d < 10 { ('0' as int + d) as char }

  /** `str(n)` for a natural number. */
  function NatToString(n: nat): (r: string)
    ensures |r| > 0 && AllDigits(r)
  {
    if n < 10 then [DigitChar(n)] else NatToString(n / 10) + [DigitChar(n % 10)]
  }

  /** Reading back the decimal rendering of n gives n. */
  lemma {:induction false} NatToStringValue(n: nat)
    ensures DigitsValue(NatToString(n)) == n
  {
    if n >= 10 {
      NatToStringValue(n / 10);
      var s := NatToString(n);
      assert s[..|s| - 1] == NatToString(n / 10);
    }
  }

  /** Distinct numbers have distinct decimal renderings. */
  lemma NatToStringInjective(a: nat, b: nat)
    requires NatToString(a) == NatToString(b)
    ensures a == b
  {
    NatToStringValue(a);
    NatToStringValue(b);
  }

  /** Python's `round(x)` on a float: nearest integer, ties to the even one. */
  function RoundHalfEven(x: real): (n: int)
    ensures x - 0.5 <= n as real <= x + 0.5
    ensures (n as real - x == 0.5 || x - n as real == 0.5) ==> n % 2 == 0
  {
    var f := x.Floor;
    var d := x - f as real;
    if d < 0.5 then f
    else if d > 0.5 then f + 1
    else if f % 2 == 0 then f else f + 1
  }

  /** No element occurs twice. */
  predicate NoDuplicates<T(==)>(s: seq<T>) {
    forall i, j :: 0 <= i < j < |s| ==> s[i] != s[j]
  }

  /** The elements of s in order of first occurrence, each once. */
  function Dedup<T(==)>(s: seq<T>): seq<T> {
    if |s| == 0 then []
    else
      var d := Dedup(s[..|s| - 1]);
      if s[|s| - 1] in d then d else d + [s[|s| - 1]]
  }

  lemma {:induction false} DedupExact<T>(s: seq<T>)
    ensures NoDuplicates(Dedup(s))
    ensures forall x :: x in Dedup(s) <==> x in s
  {
    if |s| > 0 {
      DedupExact(s[..|s| - 1]);
      assert s == s[..|s| - 1] + [s[|s| - 1]];
    }
  }

  function Abs(x: real): (r: real) ensures r >= 0.0 && (r == x || r == -x) { if x < 0.0 then -x else x }
  function Min(a: real, b: real): (r: real) ensures r <= a && r <= b && (r == a || r == b) { if a <= b then a else b }
  function Max(a: real, b: real): (r: real) ensures r >= a && r >= b && (r == a || r == b) { if a >= b then a else b }

  // ---------------------------------------------------------------- stable sort

  predicate SortedBy<T>(s: seq<T>, key: T -> real) {
    forall i, j :: 0 <= i < j < |s| ==> key(s[i]) <= key(s[j])
  }

  /** Inserts x after every element whose key is at most key(x). */
  function Insert<T>(x: T, s: seq<T>, key: T -> real): (r: seq<T>)
    ensures |r| == |s| + 1
  {
    if |s| == 0 then [x]
    else if key(s[|s| - 1]) <= key(x) then s + [x]
    else Insert(x, s[..|s| - 1], key) + [s[|s| - 1]]
  }

  lemma {:induction false} InsertKeepsElements<T>(x: T, s: seq<T>, key: T -> real)
    ensures multiset(Insert(x, s, key)) == multiset(s) + multiset{x}
  {
    if |s| > 0 && key(s[|s| - 1]) > key(x) {
      InsertKeepsElements(x, s[..|s| - 1], key);
      assert s == s[..|s| - 1] + [s[|s| - 1]];
    }
  }

  lemma {:induction false} InsertKeepsOrder<T>(x: T, s: seq<T>, key: T -> real)
    requires SortedBy(s, key)
    ensures SortedBy(Insert(x, s, key), key)
  {
    if |s| > 0 && key(s[|s| - 1]) > key(x) {
      var init, last := s[..|s| - 1], s[|s| - 1];
      InsertKeepsOrder(x, init, key);
      InsertKeepsElements(x, init, key);
      var t := Insert(x, init, key);
      forall k | 0 <= k < |t| ensures key(t[k]) <= key(last) {
        assert t[k] in multiset(t);
        assert t[k] == x || t[k] in multiset(init);
        if t[k] != x {
          var j :| 0 <= j < |init| && init[j] == t[k];
          assert s[j] == init[j];
        }
      }
    }
  }

  /** `[x for x in s if p(x)]`. */
  function Filter<T>(s: seq<T>, p: T -> bool): (r: seq<T>)
    ensures |r| <= |s|
  {
    if |s| == 0 then [] else if p(s[|s| - 1]) then Filter(s[..|s| - 1], p) + [s[|s| - 1]] else Filter(s[..|s| - 1], p)
  }

  /** The comprehension keeps exactly the elements that pass. */
  lemma {:induction false} FilterExact<T>(s: seq<T>, p: T -> bool)
    ensures forall x :: x in Filter(s, p) <==> x in s && p(x)
  {
    if |s| > 0 {
      var init := s[..|s| - 1];
      FilterExact(init, p);
      assert s == init + [s[|s| - 1]];
    }
  }

  /** One more element of the input extends the comprehension by itself or by nothing. */
  lemma FilterStep<T>(s: seq<T>, i: int, p: T -> bool)
    requires 0 <= i < |s|
    ensures Filter(s[..i + 1], p) == Filter(s[..i], p) + (if p(s[i]) then [s[i]] else [])
  {
    assert s[..i + 1][..i] == s[..i];
  }

  /** A comprehension every element passes keeps the whole sequence. */
  lemma {:induction false} FilterAll<T>(s: seq<T>, p: T -> bool)
    ensures (forall x :: x in s ==> p(x)) ==> Filter(s, p) == s
  {
    if |s| > 0 && forall x :: x in s ==> p(x) {
      var init := s[..|s| - 1];
      assert forall x :: x in init ==> x in s;
      FilterAll(init, p);
      assert s == init + [s[|s| - 1]];
    }
  }

  /** Python's `sorted(s, key=key)`: ascending and stable (insertion in input order). */
  function SortBy<T>(s: seq<T>, key: T -> real): (r: seq<T>)
    ensures |r| == |s|
  {
    if |s| == 0 then [] else Insert(s[|s| - 1], SortBy(s[..|s| - 1], key), key)
  }

  /** The sort returns a sorted permutation of its input. */
  lemma SortByCorrect<T>(s: seq<T>, key: T -> real)
    ensures multiset(SortBy(s, key)) == multiset(s)
    ensures SortedBy(SortBy(s, key), key)
  {
    SortByKeepsElements(s, key);
    SortByOrdered(s, key);
  }

  lemma {:induction false} SortByKeepsElements<T>(s: seq<T>, key: T -> real)
    ensures multiset(SortBy(s, key)) == multiset(s)
  {
    if |s| > 0 {
      var init, last := s[..|s| - 1], s[|s| - 1];
      calc {
        multiset(SortBy(s, key));
        multiset(Insert(last, SortBy(init, key), key));
        { InsertKeepsElements(last, SortBy(init, key), key); }
        multiset(SortBy(init, key)) + multiset{last};
        { SortByKeepsElements(init, key); }
        multiset(init) + multiset{last};
        multiset(init + [last]);
        { assert s == init + [last]; }
        multiset(s);
      }
    }
  }

  lemma {:induction false} SortByOrdered<T>(s: seq<T>, key: T -> real)
    ensures SortedBy(SortBy(s, key), key)
  {
    if |s| > 0 {
      var init, last := s[..|s| - 1], s[|s| - 1];
      SortByOrdered(init, key);
      InsertKeepsOrder(last, SortBy(init, key), key);
    }
  }

  /** The elements whose key is v. */
  function KeyIs<T>(key: T -> real, v: real): T -> bool {
    y => key(y) == v
  }

  /** Inserting x leaves the elements of every other key where they were and
    * puts x after every element of its own key. */
  lemma {:induction false} InsertStable<T>(x: T, s: seq<T>, key: T -> real, v: real)
    ensures Filter(Insert(x, s, key), KeyIs(key, v)) == Filter(s, KeyIs(key, v)) + (if key(x) == v then [x] else [])
  {
    var p := KeyIs(key, v);
    if |s| == 0 {
    } else if key(s[|s| - 1]) <= key(x) {
      assert (s + [x])[..|s|] == s;
    } else {
      var init, last := s[..|s| - 1], s[|s| - 1];
      InsertStable(x, init, key, v);
      var r := Insert(x, init, key) + [last];
      assert r[..|r| - 1] == Insert(x, init, key);
    }
  }

  /** The sort is stable: the elements of any one key come out in their input order. */
  lemma {:induction false} SortByStable<T>(s: seq<T>, key: T -> real, v: real)
    ensures Filter(SortBy(s, key), KeyIs(key, v)) == Filter(s, KeyIs(key, v))
  {
    if |s| > 0 {
      var init, last := s[..|s| - 1], s[|s| - 1];
      SortByStable(init, key, v);
      InsertStable(last, SortBy(init, key), key, v);
    }
  }

  // ---------------------------------------------------------------- flat map

  /** `for x in xs: out.extend(g(x))`. */
  function FlatMap<A, B>(xs: seq<A>, g: A -> seq<B>): seq<B> {
    if |xs| == 0 then [] else FlatMap(xs[..|xs| - 1], g) + g(xs[|xs| - 1])
  }

  /** An element is produced exactly when some input produces it. */
  lemma {:induction false} FlatMapMembers<A, B>(xs: seq<A>, g: A -> seq<B>, y: B)
    ensures y in FlatMap(xs, g) <==> exists i :: 0 <= i < |xs| && y in g(xs[i])
  {
    if |xs| > 0 {
      var init, last := xs[..|xs| - 1], xs[|xs| - 1];
      FlatMapMembers(init, g, y);
      assert FlatMap(xs, g) == FlatMap(init, g) + g(last);
      assert y in FlatMap(xs, g) <==> y in FlatMap(init, g) || y in g(last);
      if exists i :: 0 <= i < |xs| && y in g(xs[i]) {
        var i :| 0 <= i < |xs| && y in g(xs[i]);
        if i < |init| {
          assert init[i] == xs[i];
        }
      }
      if exists i :: 0 <= i < |init| && y in g(init[i]) {
        var i :| 0 <= i < |init| && y in g(init[i]);
        assert xs[i] == init[i];
      }
    }
  }

  // ---------------------------------------------------------------- runs of a class

  /** The number of characters satisfying p that end s[..e]. */
  function RunBefore(s: string, e: nat, p: char -> bool): (k: nat)
    requires e <= |s|
    ensures k <= e
    ensures forall i :: e - k <= i < e ==> p(s[i])
    ensures k < e ==> !p(s[e - k - 1])
  {
    if e == 0 || !p(s[e - 1]) then 0 else 1 + RunBefore(s, e - 1, p)
  }

  /** `re.findall(r'[class]+', s)` for the class p: the maximal runs of
    * characters satisfying p, left to right. */
  function Runs(s: string, p: char -> bool): (runs: seq<string>)
    ensures forall i :: 0 <= i < |runs| ==> |runs[i]| > 0 && forall k :: 0 <= k < |runs[i]| ==> p(runs[i][k])
    decreases |s|
  {
    if |s| == 0 then []
    else if !p(s[|s| - 1]) then Runs(s[..|s| - 1], p)
    else
      var k := RunBefore(s, |s|, p);
      Runs(s[..|s| - k], p) + [s[|s| - k..]]
  }

  /** Keeping every element of an appended part that all pass keeps all of it. */
  lemma {:induction false} FilterAppendPassing<T>(a: seq<T>, b: seq<T>, p: T -> bool)
    requires forall i :: 0 <= i < |b| ==> p(b[i])
    ensures Filter(a + b, p) == Filter(a, p) + b
  {
    if |b| > 0 {
      var init := b[..|b| - 1];
      assert (a + b)[..|a + b| - 1] == a + init;
      FilterAppendPassing(a, init, p);
      assert b == init + [b[|b| - 1]];
    } else {
      assert a + b == a;
    }
  }

  /** The runs, put back together, are exactly the characters of s that
    * satisfy p, in order: nothing is lost or repeated. */
  lemma {:induction false} RunsConcat(s: string, p: char -> bool)
    ensures Concat(Runs(s, p)) == Filter(s, p)
    decreases |s|
  {
    if |s| > 0 {
      if !p(s[|s| - 1]) {
        RunsConcat(s[..|s| - 1], p);
      } else {
        var k := RunBefore(s, |s|, p);
        var pre, run := s[..|s| - k], s[|s| - k..];
        RunsConcat(pre, p);
        var rs := Runs(pre, p);
        assert (rs + [run])[..|rs|] == rs;
        assert s == pre + run;
        FilterAppendPassing(pre, run, p);
      }
    }
  }

  /** An occurrence in a prefix is an occurrence in the whole string. */
  lemma OccursInPrefix(s: string, m: int, r: string, i: int)
    requires 0 <= m <= |s| && OccursAt(s[..m], r, i)
    ensures OccursAt(s, r, i)
  {
    assert s[..m][i..i + |r|] == s[i..i + |r|];
  }

  /** Every run is a piece of s. */
  lemma {:induction false} RunsOccur(s: string, p: char -> bool)
    ensures forall r :: r in Runs(s, p) ==> Contains(s, r)
    decreases |s|
  {
    if |s| > 0 {
      var pre := if !p(s[|s| - 1]) then s[..|s| - 1] else s[..|s| - RunBefore(s, |s|, p)];
      RunsOccur(pre, p);
      forall r | r in Runs(pre, p) ensures Contains(s, r) {
        var i :| 0 <= i <= |pre| - |r| && OccursAt(pre, r, i);
        OccursInPrefix(s, |pre|, r, i);
      }
      if p(s[|s| - 1]) {
        var k := RunBefore(s, |s|, p);
        assert OccursAt(s, s[|s| - k..], |s| - k);
      }
    }
  }
}
