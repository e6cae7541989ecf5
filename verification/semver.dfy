/** Release versions: parsing, printing, ordering and bumping of vMAJOR.MINOR.PATCH. */
module Semver {
  import opened Wrappers

  const MAX_INT: int := 0x7FFF_FFFF_FFFF_FFFF
  const MIN_INT: int := -0x8000_0000_0000_0000

  /** The 64-bit `int` of the program. */
  type GoInt = x: int | MIN_INT <= x <= MAX_INT

  /** Two's complement wrap-around of a sum or difference of two `GoInt`s. */
  function Wrap(x: int): GoInt {
    var m := (x - MIN_INT) % 0x1_0000_0000_0000_0000;
    m + MIN_INT
  }

  datatype Version = Version(major: GoInt, minor: GoInt, patch: GoInt) {
    predicate NonNegative() {
      0 <= major && 0 <= minor && 0 <= patch
    }
  }

  const ZERO := Version(0, 0, 0)

  // Decimal text

  predicate IsDigit(c: char) {
    '0' <= c <= '9'
  }

  predicate AllDigits(s: string) {
    forall i :: 0 <= i < |s| ==> IsDigit(s[i])
  }

  function DigitValue(c: char): nat
    requires IsDigit(c)
  {
    c as nat - '0' as nat
  }

  function DigitChar(d: nat): (c: char)
    requires d < 10
    ensures IsDigit(c) && DigitValue(c) == d
  {
    ['0', '1', '2', '3', '4', '5', '6', '7', '8', '9'][d]
  }

  /** The number a digit string denotes, without any bound. */
  function Value(s: string): nat
    requires AllDigits(s)
  {
    if s == "" then 0 else 10 * Value(s[..|s| - 1]) + DigitValue(s[|s| - 1])
  }

  /** strconv.Atoi on a digit string with its error dropped: out of range gives the largest int. */
  function Atoi(s: string): (r: GoInt)
    requires AllDigits(s)
    ensures 0 <= r
  {
    if Value(s) <= MAX_INT then Value(s) else MAX_INT
  }

  function NatText(n: nat): (s: string)
    ensures s != "" && AllDigits(s)
    ensures Value(s) == n
  {
    if n < 10 then [DigitChar(n)]
    else
      var s := NatText(n / 10) + [DigitChar(n % 10)];
      assert s[..|s| - 1] == NatText(n / 10);
      s
  }

  function Pow10(n: nat): nat {
    if n == 0 then 1 else 10 * Pow10(n - 1)
  }

  /** Decimal notation: the first digit counts in units of the power of ten that its place calls for. */
  lemma {:induction false} PlaceValue(s: string)
    requires AllDigits(s) && s != ""
    ensures Value(s) == (s[0] as int - '0' as int) * Pow10(|s| - 1) + Value(s[1..])
  {
    var init, last := s[..|s| - 1], s[|s| - 1];
    if |s| > 1 {
      PlaceValue(init);
      assert s[1..][..|s| - 2] == init[1..] && s[1..][|s| - 2] == last;
      TenTimes(s[0] as int - '0' as int, Pow10(|s| - 2), Value(init[1..]));
    } else {
      assert init == "" && s[1..] == "";
    }
  }

  lemma TenTimes(d: nat, power: nat, rest: nat)
    ensures 10 * (d * power + rest) == d * (10 * power) + 10 * rest
  {
  }

  /** Numbers are written without leading zeros. */
  lemma {:induction false} NoLeadingZero(n: nat)
    ensures |NatText(n)| > 1 ==> NatText(n)[0] != '0'
    ensures n > 0 ==> NatText(n)[0] != '0'
  {
    if n >= 10 {
      NoLeadingZero(n / 10);
    }
  }

  /** The %d verb. */
  function IntText(n: int): string {
    if n < 0 then "-" + NatText(-n) else NatText(n)
  }

  function String(v: Version): string {
    "v" + IntText(v.major) + "." + IntText(v.minor) + "." + IntText(v.patch)
  }

  // Parsing

  /** Splits off the longest run of digits at the start of s. */
  function Digits(s: string): (r: (string, string))
    ensures s == r.0 + r.1 && AllDigits(r.0)
    ensures r.1 == "" || !IsDigit(r.1[0])
  {
    if s == "" || !IsDigit(s[0]) then ("", s)
    else
      var (run, rest) := Digits(s[1..]);
      ([s[0]] + run, rest)
  }

  /** The regular expression ^v(\d+)\.(\d+)\.(\d+)$ as a statement about s and its three groups. */
  predicate Matches(s: string, a: string, b: string, c: string) {
    && a != "" && b != "" && c != ""
    && AllDigits(a) && AllDigits(b) && AllDigits(c)
    && s == "v" + a + "." + b + "." + c
  }

  function Parse(s: string): Option<Version> {
    if s == "" || s[0] != 'v' then None
    else
      var (a, s1) := Digits(s[1..]);
      if a == "" || s1 == "" || s1[0] != '.' then None
      else
        var (b, s2) := Digits(s1[1..]);
        if b == "" || s2 == "" || s2[0] != '.' then None
        else
          var (c, s3) := Digits(s2[1..]);
          if c == "" || s3 != "" then None
          else Some(Version(Atoi(a), Atoi(b), Atoi(c)))
  }

  lemma {:induction false} DigitsAt(a: string, rest: string)
    requires AllDigits(a) && (rest == "" || !IsDigit(rest[0]))
    ensures Digits(a + rest) == (a, rest)
  {
    if a == "" {
      assert a + rest == rest;
    } else {
      var s := a + rest;
      DigitsAt(a[1..], rest);
      assert s[1..] == a[1..] + rest;
      assert s[0] == a[0] && IsDigit(a[0]);
      assert Digits(s) == ([a[0]] + a[1..], rest);
      assert [a[0]] + a[1..] == a;
    }
  }

  lemma ParseReads(s: string, a: string, b: string, c: string)
    requires Matches(s, a, b, c)
    ensures Parse(s) == Some(Version(Atoi(a), Atoi(b), Atoi(c)))
  {
    var s2 := "." + c;
    var s1 := "." + (b + s2);
    assert s[1..] == a + s1;
    DigitsAt(a, s1);
    assert s1[1..] == b + s2;
    DigitsAt(b, s2);
    assert s2[1..] == c + "";
    DigitsAt(c, "");
  }

  /** Parse accepts every string the regular expression matches, and reads its three groups, each cut off at the largest
      int. */
  lemma ParseAcceptsMatches(s: string, a: string, b: string, c: string)
    requires Matches(s, a, b, c)
    ensures Parse(s).Some?
    ensures var v, top := Parse(s).value, 0x7FFF_FFFF_FFFF_FFFF;
            && v.major == (if Value(a) < top then Value(a) else top)
            && v.minor == (if Value(b) < top then Value(b) else top)
            && v.patch == (if Value(c) < top then Value(c) else top)
  {
    hide Parse, Value, Matches;
    ParseReads(s, a, b, c);
  }

  /** Parse accepts nothing else. */
  lemma ParseOnlyMatches(s: string)
    requires Parse(s).Some?
    ensures exists a, b, c :: Matches(s, a, b, c)
    ensures Parse(s).value.NonNegative()
  {
    hide Digits, Value, Atoi;
    var (a, s1) := Digits(s[1..]);
    var (b, s2) := Digits(s1[1..]);
    var (c, s3) := Digits(s2[1..]);
    calc {
      s;
      "v" + s[1..];
      "v" + (a + s1);
      { assert s1 == "." + s1[1..]; }
      "v" + (a + ("." + s1[1..]));
      { assert s1[1..] == b + ("." + s2[1..]); }
      "v" + (a + ("." + (b + ("." + s2[1..]))));
      { assert s2[1..] == c; }
      "v" + a + "." + b + "." + c;
    }
    assert Matches(s, a, b, c);
  }

  /** Printing and parsing are inverse on exactly the versions without a negative component. */
  lemma ParseString(v: Version)
    ensures Parse(String(v)) == Some(v) <==> v.NonNegative()
    ensures !v.NonNegative() ==> Parse(String(v)) == None
  {
    hide Parse, Value;
    var s := String(v);
    if v.NonNegative() {
      ParseReads(s, NatText(v.major), NatText(v.minor), NatText(v.patch));
    } else if Parse(s).Some? {
      ParseOnlyMatches(s);
      var a, b, c :| Matches(s, a, b, c);
      MinusOnlyInNegative(v);
    }
  }

  lemma MinusOnlyInNegative(v: Version)
    ensures '-' in String(v) <==> !v.NonNegative()
  {
    if v.major < 0 {
      assert IntText(v.major)[0] == '-';
    }
    if v.minor < 0 {
      assert IntText(v.minor)[0] == '-';
    }
    if v.patch < 0 {
      assert IntText(v.patch)[0] == '-';
    }
  }

  /** A version text never contains a slash, so it can end a tag name. */
  lemma StringHasNoSlash(v: Version)
    ensures forall i :: 0 <= i < |String(v)| ==> String(v)[i] != '/'
  {
    hide NatText, Value;
    IntTextHasNoSlash(v.major);
    IntTextHasNoSlash(v.minor);
    IntTextHasNoSlash(v.patch);
    assert forall c :: c in String(v) ==>
      c == 'v' || c == '.' || c in IntText(v.major) || c in IntText(v.minor) || c in IntText(v.patch);
  }

  lemma IntTextHasNoSlash(n: int)
    ensures '/' !in IntText(n)
  {
    hide NatText, Value;
  }

  // Order

  /** Mathematical precedence, section 11 of Semantic Versioning 2.0.0 without pre-releases. */
  predicate Less(a: Version, b: Version) {
    || a.major < b.major
    || (a.major == b.major && (a.minor < b.minor || (a.minor == b.minor && a.patch < b.patch)))
  }

  /** The loop over the three differences, which wrap around like any int. */
  method CompareLoop(a: Version, b: Version) returns (r: int)
    ensures r == Compare(a, b)
  {
    var diffs := [Wrap(a.major - b.major), Wrap(a.minor - b.minor), Wrap(a.patch - b.patch)];
    for i := 0 to 3
      invariant forall k :: 0 <= k < i ==> diffs[k] == 0
    {
      assert i == 0 || diffs[0] == 0;
      assert i <= 1 || diffs[1] == 0;
      if diffs[i] < 0 { return -1; }
      if diffs[i] > 0 { return 1; }
    }
    assert diffs[0] == 0 && diffs[1] == 0 && diffs[2] == 0;
    return 0;
  }

  function Sign(d: int): int {
    if d < 0 then -1 else if d > 0 then 1 else 0
  }

  function Compare(a: Version, b: Version): int {
    var d0, d1, d2 := Wrap(a.major - b.major), Wrap(a.minor - b.minor), Wrap(a.patch - b.patch);
    if d0 != 0 then Sign(d0) else if d1 != 0 then Sign(d1) else Sign(d2)
  }

  predicate Fits(d: int) {
    MIN_INT <= d <= MAX_INT
  }

  /** The difference of the first components that differ, 0 for equal versions. */
  function DecidingDifference(a: Version, b: Version): int {
    if a.major != b.major then a.major - b.major
    else if a.minor != b.minor then a.minor - b.minor
    else a.patch - b.patch
  }

  /** Compare is the mathematical order exactly when the deciding difference does not overflow. */
  lemma CompareIsPrecedence(a: Version, b: Version)
    ensures Compare(a, b) == 0 <==> a == b
    ensures Fits(DecidingDifference(a, b)) <==>
            Compare(a, b) == (if Less(a, b) then -1 else if Less(b, a) then 1 else 0)
    ensures a.NonNegative() && b.NonNegative() ==> Fits(DecidingDifference(a, b))
  {
  }

  lemma LessIsStrictTotalOrder(a: Version, b: Version, c: Version)
    ensures !Less(a, a)
    ensures Less(a, b) && Less(b, c) ==> Less(a, c)
    ensures Less(a, b) || Less(b, a) || a == b
    ensures !(Less(a, b) && Less(b, a))
  {
  }

  // Bump

  datatype Kind = Major | Minor | Patch

  function KindOf(kind: string): Option<Kind> {
    if kind == "major" then Some(Major)
    else if kind == "minor" then Some(Minor)
    else if kind == "patch" then Some(Patch)
    else None
  }

  function BumpKind(cur: Version, kind: Kind): Version {
    match kind
    case Major => Version(Wrap(cur.major + 1), 0, 0)
    case Minor => Version(cur.major, Wrap(cur.minor + 1), 0)
    case Patch => Version(cur.major, cur.minor, Wrap(cur.patch + 1))
  }

  function Bump(cur: Version, kind: string): Option<Version> {
    match KindOf(kind)
    case None => None
    case Some(k) => Some(BumpKind(cur, k))
  }

  /** One more, or the smallest int after the largest. */
  function OneUp(n: GoInt): GoInt {
    if n < MAX_INT then n + 1 else MIN_INT
  }

  /** The version one above cur in the component that the text names, with the lower components at zero. */
  predicate Follows(cur: Version, kind: string, next: Version) {
    || (kind == "major" && next == Version(OneUp(cur.major), 0, 0))
    || (kind == "minor" && next == Version(cur.major, OneUp(cur.minor), 0))
    || (kind == "patch" && next == Version(cur.major, cur.minor, OneUp(cur.patch)))
  }

  /** Bump knows these three texts and no other. */
  lemma BumpFollows(cur: Version, kind: string)
    ensures Bump(cur, kind).Some? <==> kind == "major" || kind == "minor" || kind == "patch"
    ensures forall next :: Bump(cur, kind) == Some(next) <==> Follows(cur, kind, next)
  {
  }

  function Bumped(cur: Version, kind: Kind): GoInt {
    match kind case Major => cur.major case Minor => cur.minor case Patch => cur.patch
  }

  /** The components below the bumped one are zero. */
  predicate Rounded(v: Version, kind: Kind) {
    match kind case Major => v.minor == 0 && v.patch == 0 case Minor => v.patch == 0 case Patch => true
  }

  /** A bump is the least version of its kind above the current one (items 6 to 8 of Semantic Versioning 2.0.0). */
  lemma BumpIsLeast(cur: Version, kind: Kind, v: Version)
    requires cur.NonNegative() && v.NonNegative() && Bumped(cur, kind) < MAX_INT
    requires Rounded(v, kind) && Less(cur, v)
    ensures Rounded(BumpKind(cur, kind), kind) && Less(cur, BumpKind(cur, kind))
    ensures v == BumpKind(cur, kind) || Less(BumpKind(cur, kind), v)
  {
  }

  /** A bump goes strictly up exactly when the bumped component is not the largest int. */
  lemma BumpIncreases(cur: Version, kind: Kind)
    ensures Less(cur, BumpKind(cur, kind)) <==> Bumped(cur, kind) < MAX_INT
    ensures cur.NonNegative() ==> (BumpKind(cur, kind).NonNegative() <==> Bumped(cur, kind) < MAX_INT)
  {
  }

  // Latest

  function Better(best: Option<Version>, s: string): Option<Version> {
    match Parse(s)
    case None => best
    case Some(v) => if best.None? || Compare(v, best.value) > 0 then Some(v) else best
  }

  function Latest(versions: seq<string>): Option<Version> {
    if versions == [] then None
    else Better(Latest(versions[..|versions| - 1]), versions[|versions| - 1])
  }

  /** The loop of Latest, with its accumulator and its found flag. */
  method LatestLoop(versions: seq<string>) returns (best: Version, ok: bool)
    ensures (if ok then Some(best) else None) == Latest(versions)
  {
    best, ok := ZERO, false;
    for i := 0 to |versions|
      invariant (if ok then Some(best) else None) == Latest(versions[..i])
    {
      assert versions[..i + 1][..i] == versions[..i];
      match Parse(versions[i]) {
        case None =>
        case Some(v) =>
          var c := 1;
          if ok { c := CompareLoop(v, best); }
          if c > 0 { best, ok := v, true; }
      }
    }
    assert versions[..|versions|] == versions;
  }

  ghost predicate Parses(versions: seq<string>, v: Version) {
    exists s :: s in versions && Parse(s) == Some(v)
  }

  /** best is what Latest may return for these entries. */
  ghost predicate IsMaximum(versions: seq<string>, best: Option<Version>) {
    match best
    case None => forall v :: !Parses(versions, v)
    case Some(m) => Parses(versions, m) && m.NonNegative() &&
                    forall v :: Parses(versions, v) ==> v == m || Less(v, m)
  }

  lemma ParsesAppend(init: seq<string>, last: string, v: Version)
    ensures Parses(init + [last], v) <==> Parses(init, v) || Parse(last) == Some(v)
  {
    if Parses(init, v) {
      var s :| s in init && Parse(s) == Some(v);
      assert s in init + [last];
    }
    if Parse(last) == Some(v) {
      assert last in init + [last];
    }
  }

  lemma BetterIsMaximum(init: seq<string>, best: Option<Version>, last: string)
    requires IsMaximum(init, best)
    ensures IsMaximum(init + [last], Better(best, last))
  {
    hide Parse;
    forall v {
      ParsesAppend(init, last, v);
    }
    if Parse(last).Some? {
      ParseOnlyMatches(last);
      if best.Some? {
        CompareIsPrecedence(Parse(last).value, best.value);
      }
    }
  }

  /** Latest is the greatest parsable entry; it is None only when nothing parses. */
  lemma {:induction false} LatestIsMaximum(versions: seq<string>)
    ensures IsMaximum(versions, Latest(versions))
  {
    if versions != [] {
      var init, last := versions[..|versions| - 1], versions[|versions| - 1];
      assert versions == init + [last];
      LatestIsMaximum(init);
      BetterIsMaximum(init, Latest(init), last);
    }
  }

  /** Order, duplicates and unparsable entries do not matter: only the set of parsed versions does. */
  lemma LatestDependsOnParsedSet(xs: seq<string>, ys: seq<string>)
    requires forall v :: Parses(xs, v) <==> Parses(ys, v)
    ensures Latest(xs) == Latest(ys)
  {
    LatestIsMaximum(xs);
    LatestIsMaximum(ys);
  }

  /** The version a release computes from the listed tags. */
  function Next(listing: seq<string>, kind: Kind): Version {
    BumpKind(Latest(listing).GetOr(ZERO), kind)
  }

  /** The component about to be bumped has room. */
  predicate HasRoom(listing: seq<string>, kind: Kind) {
    Bumped(Latest(listing).GetOr(ZERO), kind) < MAX_INT
  }

  /** A release version is above everything listed, and its text is a new one. */
  lemma NextIsFresh(listing: seq<string>, kind: Kind)
    requires HasRoom(listing, kind)
    ensures Next(listing, kind).NonNegative()
    ensures forall v :: Parses(listing, v) ==> Less(v, Next(listing, kind))
    ensures String(Next(listing, kind)) !in listing && Parse(String(Next(listing, kind))) == Some(Next(listing, kind))
  {
    hide String, Parse, Latest, BumpKind;
    var cur := Latest(listing).GetOr(ZERO);
    var next := Next(listing, kind);
    LatestIsMaximum(listing);
    BumpIncreases(cur, kind);
    ParseString(next);
    if String(next) in listing {
      assert Parses(listing, next);
    }
  }

  /** With the component at the largest int the bump wraps to a text that does not even parse. */
  lemma NextOverflows(listing: seq<string>, kind: Kind)
    requires !HasRoom(listing, kind)
    ensures Less(Next(listing, kind), Latest(listing).GetOr(ZERO))
    ensures Parse(String(Next(listing, kind))) == None
  {
    LatestIsMaximum(listing);
    BumpIncreases(Latest(listing).GetOr(ZERO), kind);
    ParseString(Next(listing, kind));
  }
}
