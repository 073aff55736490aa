/** The well-name vocabulary shared by app/enhanced_well_parser.py and
  * app/well_name_learner.py: the `...井` pattern, the leading prefix, the
  * trailing suffix, the L/l/N structure of a name and the candidate
  * well codes of a file name. */
module Wells {
  import opened Text
  import opened Regex

  // ------------------------------------------------------------ patterns

  /** `[A-Za-z0-9\-]+井`: a well code written with the well character. */
  const WellCharRe: Re :=
    Cat(Plus(Set([Range('A', 'Z'), Range('a', 'z'), Range('0', '9'), Range('-', '-')], false)), Lit('井'))

  /** `re.findall(r'([A-Za-z0-9\-]+井)', s)`; its one group spans the whole pattern. */
  function WellMatches(s: string): seq<string> {
    FindAll(WellCharRe, s)
  }

  /** `\.[a-zA-Z]+$`: a final alphabetic extension. */
  const AlphaExtRe: Re := Cat(Lit('.'), Cat(Plus(Letter), End))

  /** `[A-Z]{2,4}\d+(?:-\d+)*(?:-[A-Za-z0-9]+)*`, the standard code. */
  const StandardCodeRe: Re :=
    Cat(Between(Regex.Upper, 2, 4), Cat(Digits, Cat(Star(Cat(Lit('-'), Digits), true), Star(Cat(Lit('-'), Plus(Alnum)), true))))

  /** `[A-Z]{2,4}\d+[A-Za-z0-9]*`, the compact code. */
  const CompactCodeRe: Re := Cat(Between(Regex.Upper, 2, 4), Cat(Digits, Star(Alnum, true)))

  /** `_extract_potential_wells`: both patterns' matches in the name without its
    * extension, each once. Python returns `list(set(...))`, whose order is
    * unspecified; this is one order (first occurrence), and the parser's
    * lemmas say what does not depend on it. */
  function PotentialWells(filename: string): (r: seq<string>)
    ensures NoDuplicates(r)
  {
    var name := Sub(AlphaExtRe, filename, "");
    var all := FindAll(StandardCodeRe, name) + FindAll(CompactCodeRe, name);
    DedupExact(all);
    Dedup(all)
  }

  // ------------------------------------------------------------ prefix and suffix

  /** The number of ASCII capitals that start s, at most n. */
  function CapitalRun(s: string, n: nat): (k: nat)
    ensures k <= n && k <= |s|
    ensures forall i :: 0 <= i < k ==> IsUpper(s[i])
    ensures k < n && k < |s| ==> !IsUpper(s[k])
  {
    if n == 0 || |s| == 0 || !IsUpper(s[0]) then 0 else 1 + CapitalRun(s[1..], n - 1)
  }

  /** `re.match(r'^([A-Z]{2,4})', s).group(1)`: the greedy two to four leading
    * capitals, when there are at least two. */
  function PrefixOf(s: string): (r: Option<string>)
    ensures r.Some? <==> |s| >= 2 && IsUpper(s[0]) && IsUpper(s[1])
    ensures r.Some? ==> 2 <= |r.value| <= 4 && IsPrefix(r.value, s)
    ensures r.Some? ==> forall i :: 0 <= i < |r.value| ==> IsUpper(r.value[i])
    ensures r.Some? && |r.value| < 4 && |r.value| < |s| ==> !IsUpper(s[|r.value|])
  {
    var k := CapitalRun(s, 4);
    if k >= 2 then Some(s[..k]) else None
  }

  /** Where Python's `$` first matches: before a final '\n', else the end. */
  function TextEnd(s: string): (e: nat)
    ensures e <= |s|
  {
    if |s| > 0 && s[|s| - 1] == '\n' then |s| - 1 else |s|
  }

  /** The number of ASCII letters that end s[..e]. */
  function LetterRunBefore(s: string, e: nat): (k: nat)
    requires e <= |s|
    ensures k <= e
    ensures forall i :: e - k <= i < e ==> IsLetter(s[i])
    ensures k < e ==> !IsLetter(s[e - k - 1])
  {
    if e == 0 || !IsLetter(s[e - 1]) then 0 else 1 + LetterRunBefore(s, e - 1)
  }

  /** `re.search(r'([A-Za-z]+)$', s).group(1)`: the longest run of ASCII letters
    * that ends where `$` matches. */
  function SuffixOf(s: string): (r: Option<string>)
    ensures r.Some? <==> TextEnd(s) > 0 && IsLetter(s[TextEnd(s) - 1])
  {
    var e := TextEnd(s);
    var k := LetterRunBefore(s, e);
    if k > 0 then Some(s[e - k..e]) else None
  }

  /** The suffix is a non-empty run of letters that ends the text before `$`,
    * and the letter run cannot be extended to the left. */
  lemma SuffixOfShape(s: string)
    ensures var r, e := SuffixOf(s), TextEnd(s);
      r.Some? ==>
        && 0 < |r.value| <= e
        && IsSuffix(r.value, s[..e])
        && (forall i :: 0 <= i < |r.value| ==> IsLetter(r.value[i]))
        && (|r.value| < e ==> !IsLetter(s[e - |r.value| - 1]))
  {
    var e := TextEnd(s);
    var k := LetterRunBefore(s, e);
    if k > 0 {
      assert s[..e][e - k..] == s[e - k..e];
    }
  }

  /** `well.replace('井', '')`. */
  function BaseOf(well: string): (r: string)
    ensures |r| <= |well| && !HasChar(r, '井')
  {
    RemoveChar(well, '井')
  }

  // ------------------------------------------------------------ structure

  /** `str.isupper` on one letter of the scripts `IsAlpha` covers. */
  predicate IsUpperAlpha(c: char) {
    IsUpper(c) || ('\U{00c0}' <= c <= '\U{00de}' && c != '\U{00d7}') || '\U{ff21}' <= c <= '\U{ff3a}'
  }

  /** `str.isdigit` on the same scripts: ASCII and full-width digits. */
  predicate IsDecimal(c: char) {
    IsDigit(c) || '\U{ff10}' <= c <= '\U{ff19}'
  }

  /** One character of the structure: 'L' for a capital, 'l' for any other
    * letter, 'N' for a digit, the character itself otherwise. */
  function StructureChar(c: char): (r: char)
    ensures r == 'L' <==> IsAlpha(c) && IsUpperAlpha(c)
    ensures r == 'l' <==> IsAlpha(c) && !IsUpperAlpha(c)
    ensures r == 'N' <==> !IsAlpha(c) && IsDecimal(c)
    ensures r != 'L' && r != 'l' && r != 'N' ==> r == c
  {
    if IsAlpha(c) then (if IsUpperAlpha(c) then 'L' else 'l')
    else if IsDecimal(c) then 'N'
    else c
  }

  /** The structure pattern of a name. */
  function Structure(name: string): seq<char> {
    seq(|name|, i requires 0 <= i < |name| => StructureChar(name[i]))
  }

  /** `_extract_structure_pattern`: the pattern built one character at a time. */
  method ExtractStructurePattern(name: string) returns (pattern: string)
    ensures |pattern| == |name|
    ensures forall i :: 0 <= i < |name| ==> pattern[i] == StructureChar(name[i])
    ensures pattern == Structure(name)
  {
    pattern := "";
    for i := 0 to |name|
      invariant |pattern| == i
      invariant forall j :: 0 <= j < i ==> pattern[j] == StructureChar(name[j])
    {
      var c := name[i];
      if IsAlpha(c) {
        if IsUpperAlpha(c) {
          pattern := pattern + "L";
        } else {
          pattern := pattern + "l";
        }
      } else if IsDecimal(c) {
        pattern := pattern + "N";
      } else {
        pattern := pattern + [c];
      }
    }
  }

  /** The table of `_is_valid_structure`. */
  const ValidStructures: seq<string> :=
    ["LLLNN-N-NLLL", "LLLNN-N-NLL", "LLLNN-NLLL", "LLLNN-NLL", "LLLNNLLL", "LLLNNLL"]

  predicate IsValidStructure(structure: string) {
    structure in ValidStructures
  }

  /** Every listed structure starts with three capitals, so only a name whose
    * first three characters are capital letters can have one. */
  lemma ValidStructureNeedsThreeCapitals(name: string)
    ensures IsValidStructure(Structure(name)) ==>
      |name| >= 3 && forall i :: 0 <= i < 3 ==> IsAlpha(name[i]) && IsUpperAlpha(name[i])
  {
    if IsValidStructure(Structure(name)) {
      var s := Structure(name);
      assert s[0] == 'L' && s[1] == 'L' && s[2] == 'L';
    }
  }

  /** The names the table is annotated with. */
  const StructureExamples: seq<string> := ["BZ26-6-B6H", "BZ26-6-B6", "BZ26-B6H", "BZ26-B6", "BZ26B6H", "BZ26B6"]

  /** None of those names has a listed structure: their third character is a digit. */
  lemma StructureExamplesRejected()
    ensures forall k :: 0 <= k < |StructureExamples| ==> !IsValidStructure(Structure(StructureExamples[k]))
  {
    forall k | 0 <= k < |StructureExamples|
      ensures !IsValidStructure(Structure(StructureExamples[k]))
    {
      var name := StructureExamples[k];
      assert name[2] == '2';
      ValidStructureNeedsThreeCapitals(name);
    }
  }

  /** The table the annotations describe: the structures of those names. */
  const IntendedStructures: seq<string> := ["LLNN-N-LNL", "LLNN-N-LN", "LLNN-LNL", "LLNN-LN", "LLNNLNL", "LLNNLN"]

  predicate IsIntendedStructure(structure: string) {
    structure in IntendedStructures
  }

  /** Each annotated name has the intended structure it is listed with. */
  lemma StructureExamplesIntended()
    ensures forall k :: 0 <= k < |StructureExamples| ==> Structure(StructureExamples[k]) == IntendedStructures[k]
    ensures forall k :: 0 <= k < |StructureExamples| ==> IsIntendedStructure(Structure(StructureExamples[k]))
  {
  }
}
