/** The input checks of app/security.py: file-name cleaning, the well-name,
  * depth and relative-path validators, and the per-client rate limiter. */
module Security {
  import opened Text
  import opened Regex

  // ------------------------------------------------------------ sanitize_filename

  /** The characters `sanitize_filename` replaces, in its order. */
  const Dangerous: seq<char> := ['/', '\\', ':', '*', '?', '"', '<', '>', '|', '\0']

  predicate IsDangerous(c: char) { c in Dangerous }

  /** No dangerous character occurs in s. */
  predicate Clean(s: string) { forall i :: 0 <= i < |s| ==> !IsDangerous(s[i]) }

  /** The name after the replacement loop: each dangerous character becomes '_'. */
  function Cleaned(name: string): (r: string)
    ensures |r| == |name|
    ensures forall i :: 0 <= i < |name| ==> r[i] == (if IsDangerous(name[i]) then '_' else name[i])
  {
    seq(|name|, i requires 0 <= i < |name| => if IsDangerous(name[i]) then '_' else name[i])
  }

  /** Cleaning leaves no dangerous character and changes nothing in a clean name. */
  lemma CleanedClean(name: string)
    ensures Clean(Cleaned(name))
    ensures Clean(name) ==> Cleaned(name) == name
  {
    assert !IsDangerous('_');
  }

  lemma CleanSlice(s: string, i: int, j: int)
    requires Clean(s) && 0 <= i <= j <= |s|
    ensures Clean(s[i..j])
  {
    forall k | 0 <= k < j - i ensures !IsDangerous(s[i..j][k]) { assert s[i..j][k] == s[i + k]; }
  }

  lemma CleanConcat(a: string, b: string)
    requires Clean(a) && Clean(b)
    ensures Clean(a + b)
  {
    forall k | 0 <= k < |a + b| ensures !IsDangerous((a + b)[k]) {
      if k >= |a| { assert (a + b)[k] == b[k - |a|]; }
    }
  }

  /** `name[:n]` with Python's reading of a negative n (counted from the end). */
  function SliceTo(name: string, n: int): (r: string)
    ensures IsPrefix(r, name)
    ensures n >= 0 ==> |r| == if n <= |name| then n else |name|
    ensures n < 0 ==> |r| == if |name| + n < 0 then 0 else |name| + n
  {
    if n >= 0 then (if n <= |name| then name[..n] else name)
    else if |name| + n < 0 then "" else name[..|name| + n]
  }

  /** `Path(name).suffix` for a name without '/': from the last '.', when that
    * dot is neither the first nor the last character. */
  function Suffix(name: string): (ext: string)
    ensures IsSuffix(ext, name)
    ensures |ext| > 0 ==> ext[0] == '.' && !HasChar(ext[1..], '.') && |ext| < |name|
  {
    var i := RFindChar(name, '.');
    if 0 < i < |name| - 1 then name[i..] else ""
  }

  /** `Path(name).stem`: the name without that suffix. */
  function Stem(name: string): (stem: string)
    ensures stem + Suffix(name) == name
  {
    var i := RFindChar(name, '.');
    if 0 < i < |name| - 1 then name[..i] else name
  }

  /** The length limit as written: the stem cut to 255 minus the suffix length, then the suffix. */
  function Limit(name: string): string {
    if |name| > 255 then
      var ext := Suffix(name);
      SliceTo(Stem(name), 255 - |ext|) + ext
    else name
  }

  /** `sanitize_filename`. */
  method SanitizeFilename(filename: string) returns (r: string)
    ensures r == Limit(Cleaned(filename))
  {
    r := filename;
    for k := 0 to |Dangerous|
      invariant |r| == |filename|
      invariant forall i :: 0 <= i < |r| ==> r[i] == (if filename[i] in Dangerous[..k] then '_' else filename[i])
    {
      r := ReplaceChar(r, Dangerous[k], '_');
    }
    assert Dangerous[..|Dangerous|] == Dangerous;
    assert r == Cleaned(filename);
    if |r| > 255 {
      var ext := Suffix(r);
      var maxName := 255 - |ext|;
      r := SliceTo(Stem(r), maxName) + ext;
    }
  }

  /** The limit keeps a clean name clean; a name of at most 255 characters is
    * kept, and a longer one whose suffix leaves room becomes exactly 255
    * characters ending in that suffix. */
  lemma LimitCorrect(name: string)
    ensures Clean(name) ==> Clean(Limit(name))
    ensures |name| <= 255 ==> Limit(name) == name
    ensures |name| > 255 && |Suffix(name)| <= 255 ==>
      |Limit(name)| == 255 && IsSuffix(Suffix(name), Limit(name))
  {
    if |name| > 255 {
      var ext, stem := Suffix(name), Stem(name);
      assert stem + ext == name;
      var head := SliceTo(stem, 255 - |ext|);
      if Clean(name) {
        CleanSlice(name, 0, |stem|);
        assert name[0..|stem|] == stem;
        CleanSlice(stem, 0, |head|);
        assert stem[0..|head|] == head;
        CleanSlice(name, |stem|, |name|);
        assert name[|stem|..|name|] == ext;
        CleanConcat(head, ext);
      }
      if |ext| <= 255 {
        assert (head + ext)[|head|..] == ext;
      }
    }
  }

  /** What `sanitize_filename` promises: no dangerous character survives, a
    * name of at most 255 characters keeps its length, and a longer one whose
    * suffix leaves room becomes exactly 255 characters ending in that suffix. */
  lemma SanitizeFilenameCorrect(filename: string)
    ensures var r := Limit(Cleaned(filename));
      && Clean(r)
      && (|filename| <= 255 ==> |r| == |filename|)
      && (|filename| > 255 && |Suffix(Cleaned(filename))| <= 255 ==>
            |r| == 255 && IsSuffix(Suffix(Cleaned(filename)), r))
  {
    CleanedClean(filename);
    LimitCorrect(Cleaned(filename));
  }

  /** A name whose suffix alone is longer than 255 characters is not cut
    * back: the result keeps that whole suffix. */
  lemma SanitizeLongSuffix(filename: string)
    requires |Suffix(Cleaned(filename))| > 255
    ensures |Limit(Cleaned(filename))| > 255
  {
  }

  /** Such a name exists: "a." followed by 300 letters. */
  lemma LongSuffixExample(xs: string)
    requires |xs| == 300 && forall i :: 0 <= i < |xs| ==> xs[i] == 'x'
    ensures |Suffix(Cleaned("a." + xs))| == 301
    ensures |Limit(Cleaned("a." + xs))| == 301
  {
    var t := "a." + xs;
    assert Clean(t) by {
      forall i | 0 <= i < |t| ensures !IsDangerous(t[i]) {
        if i >= 2 { assert t[i] == xs[i - 2]; }
      }
    }
    CleanedClean(t);
    assert t[0] == 'a' && t[1] == '.';
    assert forall j :: 1 < j < |t| ==> t[j] == xs[j - 2];
  }

  /** The limit as evidently intended: never longer than 255 characters (a
    * suffix that alone is too long is cut to its first 255 characters). */
  function LimitBounded(name: string): (r: string)
    ensures |r| <= 255
    ensures |name| <= 255 ==> r == name
    ensures |name| > 255 && |Suffix(name)| <= 255 ==> r == Limit(name)
    ensures Clean(name) ==> Clean(r)
  {
    LimitCorrect(name);
    if |name| > 255 && |Suffix(name)| > 255 then
      SuffixHeadClean(name);
      Suffix(name)[..255]
    else Limit(name)
  }

  lemma SuffixHeadClean(name: string)
    requires |Suffix(name)| > 255
    ensures Clean(name) ==> Clean(Suffix(name)[..255])
  {
    var ext := Suffix(name);
    if Clean(name) {
      CleanSlice(name, |name| - |ext|, |name|);
      CleanSlice(ext, 0, 255);
    }
  }

  /** `sanitize_filename` with the bounded limit. */
  function SanitizeFilenameBounded(filename: string): (r: string)
    ensures |r| <= 255 && Clean(r)
    ensures |filename| <= 255 ==> r == Cleaned(filename)
  {
    CleanedClean(filename);
    LimitBounded(Cleaned(filename))
  }

  /** The examples: `test<>.jpg`, `test/../file.jpg` (whose dots stay), and
    * 300 a's with `.jpg`. */
  lemma SanitizeExamples(as300: string)
    requires |as300| == 300 && forall i :: 0 <= i < 300 ==> as300[i] == 'a'
    ensures Limit(Cleaned("test<>.jpg")) == "test__.jpg"
    ensures Limit(Cleaned("test/../file.jpg")) == "test_.._file.jpg"
    ensures |Limit(Cleaned(as300 + ".jpg"))| == 255
    ensures IsSuffix(".jpg", Limit(Cleaned(as300 + ".jpg")))
  {
    assert Cleaned("test<>.jpg") == "test__.jpg";
    assert Cleaned("test/../file.jpg") == "test_.._file.jpg";
    SanitizeLongExample(as300);
  }

  lemma SanitizeLongExample(as300: string)
    requires |as300| == 300 && forall i :: 0 <= i < 300 ==> as300[i] == 'a'
    ensures |Limit(Cleaned(as300 + ".jpg"))| == 255
    ensures IsSuffix(".jpg", Limit(Cleaned(as300 + ".jpg")))
  {
    var t := as300 + ".jpg";
    assert Clean(t) by {
      forall i | 0 <= i < |t| ensures !IsDangerous(t[i]) {
        if i < 300 { assert t[i] == as300[i]; }
      }
    }
    CleanedClean(t);
    assert t[300] == '.' && t[301..] == "jpg";
    assert forall j :: 300 < j < |t| ==> t[j] != '.';
    assert Suffix(t) == ".jpg";
    SanitizeFilenameCorrect(t);
  }

  // ------------------------------------------------------------ validate_well_name

  /** `[A-Za-z0-9\-]` */
  const WellNameChars: seq<Range> := [Range('A', 'Z'), Range('a', 'z'), Range('0', '9'), Range('-', '-')]

  /** `^[A-Za-z0-9\-]+$` */
  const WellNameRe: Re := Cat(Start, Cat(Plus(Set(WellNameChars, false)), End))

  /** `validate_well_name`. */
  predicate ValidateWellName(name: string) {
    |name| > 0 && MatchAtStart(WellNameRe, name).Some?
  }

  /** The run of class characters `validate_well_name` accepts: all of the
    * name, or all but one final newline (which `$` lets through). */
  predicate WellNameRun(name: string) {
    |name| > 0 && (RunIn(name, 0, |name|, WellNameChars) ||
                   (|name| >= 2 && name[|name| - 1] == '\n' && RunIn(name, 0, |name| - 1, WellNameChars)))
  }

  /** The name is valid exactly when it is letters, digits and '-' only,
    * possibly followed by one final newline. */
  lemma ValidateWellNameChars(name: string)
    ensures ValidateWellName(name) <==> WellNameRun(name)
  {
    if ValidateWellName(name) { WellNameSound(name); }
    if WellNameRun(name) { WellNameComplete(name); }
  }

  /** Every match of `[A-Za-z0-9\-]+` from the start reads a run of class characters. */
  lemma WellNamePlusRun(name: string, h: Hit)
    requires h in Match(Plus(Set(WellNameChars, false)), name, 0, map[])
    ensures 1 <= h.end && RunIn(name, 0, h.end, WellNameChars)
  {
    var cls := Set(WellNameChars, false);
    var firsts := Match(cls, name, 0, map[]);
    CatAllMember(Star(cls, true), name, 0, firsts, h);
    var j :| 0 <= j < |firsts| && h in Match(Star(cls, true), name, firsts[j].end, firsts[j].groups);
    assert InRanges(name[0], WellNameChars) && firsts[j].end == 1;
    SetStarHits(WellNameChars, true, name, 1, firsts[j].groups);
  }

  lemma WellNameSound(name: string)
    requires ValidateWellName(name)
    ensures WellNameRun(name)
  {
    var tail := Cat(Plus(Set(WellNameChars, false)), End);
    var starts := Match(Start, name, 0, map[]);
    assert starts == [Hit(0, map[])];
    var h := Match(WellNameRe, name, 0, map[])[0];
    CatAllMember(tail, name, 0, starts, h);
    WellNameTailRun(name, h);
  }

  /** A match of `[A-Za-z0-9\-]+$` from the start reads a run up to the end. */
  lemma WellNameTailRun(name: string, h: Hit)
    requires h in Match(Cat(Plus(Set(WellNameChars, false)), End), name, 0, map[])
    ensures WellNameRun(name)
  {
    var plus := Match(Plus(Set(WellNameChars, false)), name, 0, map[]);
    CatAllMember(End, name, 0, plus, h);
    var k :| 0 <= k < |plus| && h in Match(End, name, plus[k].end, plus[k].groups);
    WellNamePlusRun(name, plus[k]);
    var e := plus[k].end;
    assert AtEnd(name, e);
    if e < |name| {
      assert e == |name| - 1 && name[e] == '\n';
    }
  }

  lemma WellNameComplete(name: string)
    requires WellNameRun(name)
    ensures ValidateWellName(name)
  {
    var tail := Cat(Plus(Set(WellNameChars, false)), End);
    var e := if RunIn(name, 0, |name|, WellNameChars) then |name| else |name| - 1;
    assert RunIn(name, 0, e, WellNameChars) && AtEnd(name, e) && e >= 1;
    WellNameTailReaches(name, e);
    var starts := Match(Start, name, 0, map[]);
    assert starts == [Hit(0, map[])];
    CatAllContains(tail, name, 0, starts, 0, Hit(e, map[]));
    assert Hit(e, map[]) in Match(WellNameRe, name, 0, map[]);
  }

  /** A run of class characters from the start up to the end is matched by `[A-Za-z0-9\-]+$`. */
  lemma WellNameTailReaches(name: string, e: nat)
    requires 1 <= e && RunIn(name, 0, e, WellNameChars) && AtEnd(name, e)
    ensures Hit(e, map[]) in Match(Cat(Plus(Set(WellNameChars, false)), End), name, 0, map[])
  {
    WellNamePlusReaches(name, e);
    var plus := Match(Plus(Set(WellNameChars, false)), name, 0, map[]);
    var k :| 0 <= k < |plus| && plus[k] == Hit(e, map[]);
    assert Match(End, name, e, map[]) == [Hit(e, map[])];
    CatAllContains(End, name, 0, plus, k, Hit(e, map[]));
  }

  /** A run of class characters from the start is matched by `[A-Za-z0-9\-]+`. */
  lemma WellNamePlusReaches(name: string, e: nat)
    requires 1 <= e && RunIn(name, 0, e, WellNameChars)
    ensures Hit(e, map[]) in Match(Plus(Set(WellNameChars, false)), name, 0, map[])
  {
    var cls := Set(WellNameChars, false);
    assert InRanges(name[0], WellNameChars);
    var firsts := Match(cls, name, 0, map[]);
    assert firsts == [Hit(1, map[])];
    SetStarComplete(WellNameChars, true, name, 1, e, map[]);
    CatAllContains(Star(cls, true), name, 0, firsts, 0, Hit(e, map[]));
  }

  // ------------------------------------------------------------ validate_depth_value

  /** The Python values a caller may pass. */
  datatype PyValue = PyInt(i: int) | PyFloat(x: real) | PyBool(b: bool) | PyStr(s: string) | PyNone

  /** `validate_depth_value`: an int, float or bool (an int subclass) within [0, 10000]. */
  predicate ValidateDepthValue(v: PyValue) {
    match v
    case PyInt(i) => 0 <= i <= 10000
    case PyFloat(x) => 0.0 <= x <= 10000.0
    case PyBool(_) => true
    case _ => false
  }

  /** The numeric reading of a value, if it is a number. */
  function Numeric(v: PyValue): Option<real> {
    match v
    case PyInt(i) => Some(i as real)
    case PyFloat(x) => Some(x)
    case PyBool(b) => Some(if b then 1.0 else 0.0)
    case _ => None
  }

  /** Valid exactly when the value is numeric and lies in [0, 10000]; the
    * examples 1000.5, 0 and 5000 pass, -1, 15000 and a string do not. */
  lemma ValidateDepthValueRange(v: PyValue)
    ensures ValidateDepthValue(v) <==> Numeric(v).Some? && 0.0 <= Numeric(v).value <= 10000.0
    ensures ValidateDepthValue(PyFloat(1000.5)) && ValidateDepthValue(PyInt(0)) && ValidateDepthValue(PyInt(5000))
    ensures !ValidateDepthValue(PyInt(-1)) && !ValidateDepthValue(PyInt(15000)) && !ValidateDepthValue(PyStr("invalid"))
  {
  }

  // ------------------------------------------------------------ validate_file_path

  /** The relative path `validate_file_path` goes on with: '\\' made '/',
    * leading '/' removed; None stands for the 400 rejection. */
  function CheckRelPath(rel: string): (r: Option<string>)
    ensures r.Some? ==> r.value == LStripChar(ReplaceChar(rel, '\\', '/'), '/')
  {
    var p := LStripChar(ReplaceChar(rel, '\\', '/'), '/');
    if Contains(p, "..") || IsPrefix("/", p) then None else Some(p)
  }

  /** The path is rejected exactly when it contains "..", because the check
    * for a leading '/' can never fire after the strip; what goes on has no
    * '\\' and no leading '/'. */
  lemma CheckRelPathCorrect(rel: string)
    ensures var p := LStripChar(ReplaceChar(rel, '\\', '/'), '/');
      && !IsPrefix("/", p) && !HasChar(p, '\\')
      && (CheckRelPath(rel).None? <==> Contains(p, ".."))
  {
    var q := ReplaceChar(rel, '\\', '/');
    var p := LStripChar(q, '/');
    assert IsSuffix(p, q);
    forall i | 0 <= i < |p| ensures p[i] != '\\' {
      assert p[i] == q[|q| - |p| + i];
    }
  }

  /** So an absolute path is accepted: "/etc/passwd" goes on as "etc/passwd". */
  lemma CheckRelPathAbsolute()
    ensures CheckRelPath("/etc/passwd") == Some("etc/passwd")
  {
    var e := "/etc/passwd";
    var p := "etc/passwd";
    assert ReplaceChar(e, '\\', '/') == e;
    assert e[1..] == p && p[0] != '/';
    assert LStripChar(e, '/') == LStripChar(p, '/') == p;
    forall i | 0 <= i <= |p| - 2 ensures !OccursAt(p, "..", i) {
      assert p[i..i + 2][0] == p[i] != '.';
    }
  }

  // ------------------------------------------------------------ RateLimiter

  /** The entries of one client whose time lies within the window before now. */
  function InWindow(entries: seq<(real, int)>, now: real, window: real): (r: seq<(real, int)>)
    ensures |r| <= |entries|
    ensures forall e :: e in r <==> e in entries && now - e.0 < window
  {
    FilterExact(entries, (e: (real, int)) => now - e.0 < window);
    Filter(entries, (e: (real, int)) => now - e.0 < window)
  }

  /** The sum of the counts. */
  function CountSum(entries: seq<(real, int)>): int {
    if |entries| == 0 then 0 else CountSum(entries[..|entries| - 1]) + entries[|entries| - 1].1
  }

  /** With every count 1 the sum is the number of entries. */
  lemma {:induction false} CountSumOnes(entries: seq<(real, int)>)
    requires forall e :: e in entries ==> e.1 == 1
    ensures CountSum(entries) == |entries|
  {
    if |entries| > 0 {
      var init := entries[..|entries| - 1];
      assert forall e :: e in init ==> e in entries;
      CountSumOnes(init);
    }
  }

  /** `RateLimiter`: per client, the (time, count) pairs of its requests. */
  class RateLimiter {
    const maxRequests: int
    const window: real
    var requests: map<string, seq<(real, int)>>

    /** The most entries one client can have. */
    function Cap(): nat { if maxRequests < 0 then 0 else maxRequests }

    /** Every count is 1 and no client has more than maxRequests entries. */
    predicate Valid()
      reads this
    {
      forall ip :: ip in requests ==>
        |requests[ip]| <= Cap() && forall e :: e in requests[ip] ==> e.1 == 1
    }

    constructor(maxRequests: int, window: real)
      ensures this.maxRequests == maxRequests && this.window == window
      ensures requests == map[] && Valid()
    {
      this.maxRequests := maxRequests;
      this.window := window;
      requests := map[];
    }

    /** The client's entries still within the window at time now. */
    function Kept(ip: string, now: real): seq<(real, int)>
      reads this
    {
      if ip in requests then InWindow(requests[ip], now, window) else []
    }

    /** `is_allowed` at time now: expired entries of this client are dropped;
      * the request is refused without being recorded when the counts reach
      * maxRequests, and otherwise recorded as (now, 1). */
    method IsAllowed(ip: string, now: real) returns (allowed: bool)
      requires Valid()
      modifies this
      ensures Valid()
      ensures allowed <==> CountSum(old(Kept(ip, now))) < maxRequests
      ensures allowed <==> |old(Kept(ip, now))| < maxRequests
      ensures requests ==
        if allowed then old(requests)[ip := old(Kept(ip, now)) + [(now, 1)]]
        else if ip in old(requests) then old(requests)[ip := old(Kept(ip, now))]
        else old(requests)
      ensures forall other :: other != ip ==>
        (other in requests <==> other in old(requests)) && (other in requests ==> requests[other] == old(requests)[other])
    {
      var kept := Kept(ip, now);
      assert forall e :: e in kept ==> e.1 == 1;
      CountSumOnes(kept);
      if ip in requests {
        requests := requests[ip := kept];
      }
      var current := CountSum(kept);
      if current >= maxRequests {
        return false;
      }
      requests := requests[ip := kept + [(now, 1)]];
      return true;
    }
  }

  /** With at most 3 requests a minute, three calls in the same second pass and the fourth is refused. */
  method FourthRequestRefused() returns (r1: bool, r2: bool, r3: bool, r4: bool)
    ensures r1 && r2 && r3 && !r4
  {
    var limiter := new RateLimiter(3, 60.0);
    var ip := "127.0.0.1";
    var k0: seq<(real, int)> := [];
    r1 := AllowedCall(limiter, ip, 0.0, k0, 0.1);
    var k1 := k0 + [(0.0, 1)];
    r2 := AllowedCall(limiter, ip, 0.1, k1, 0.2);
    var k2 := k1 + [(0.1, 1)];
    r3 := AllowedCall(limiter, ip, 0.2, k2, 0.3);
    r4 := limiter.IsAllowed(ip, 0.3);
  }

  /** A call with fewer than maxRequests entries kept is allowed and recorded;
    * at a later time next, still within the window of all of them, they are
    * all kept. */
  method AllowedCall(limiter: RateLimiter, ip: string, now: real, kept: seq<(real, int)>, next: real) returns (allowed: bool)
    requires limiter.Valid() && limiter.Kept(ip, now) == kept && |kept| < limiter.maxRequests
    requires next - now < limiter.window && forall i :: 0 <= i < |kept| ==> next - kept[i].0 < limiter.window
    modifies limiter
    ensures limiter.Valid() && allowed
    ensures limiter.Kept(ip, next) == kept + [(now, 1)]
  {
    allowed := limiter.IsAllowed(ip, now);
    InWindowFresh(kept + [(now, 1)], next, limiter.window);
  }

  /** Entries all inside the window are all kept. */
  lemma InWindowFresh(entries: seq<(real, int)>, now: real, window: real)
    requires forall i :: 0 <= i < |entries| ==> now - entries[i].0 < window
    ensures InWindow(entries, now, window) == entries
  {
    FilterAll(entries, (e: (real, int)) => now - e.0 < window);
  }
}
