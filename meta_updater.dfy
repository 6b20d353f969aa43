/** The update window: reading a version number out of a release tag, and the
    loop that lists the release notes of every release newer than the running
    version. The release list comes from the network in the program; here it is
    a parameter, in the order the program receives it. */
module MetaUpdater {
  import opened Decimal
  import Text

  /** The exceptions that GetVersionNumber can meet. Only FormatException is caught. */
  datatype Fault = FormatException | OverflowException | IndexOutOfRangeException

  datatype Parsed = Value(n: int) | Failed(fault: Fault)

  const Int32Min: int := -0x8000_0000
  const Int32Max: int := 0x7FFF_FFFF

  /** The white space NumberStyles.Integer allows before and after the number. */
  predicate IsParseWhite(c: char) {
    ('\U{0009}' <= c <= '\U{000D}') || c == ' '
  }

  function TrimStart(s: string): (r: string)
    ensures |r| <= |s|
  {
    if s != [] && IsParseWhite(s[0]) then TrimStart(s[1..]) else s
  }

  function TrimEnd(s: string): (r: string)
    ensures |r| <= |s|
  {
    if s != [] && IsParseWhite(s[|s| - 1]) then TrimEnd(s[..|s| - 1]) else s
  }

  /** int.Parse(s): optional white space, an optional sign, one or more ASCII
      digits, optional white space; a value outside 32 bits overflows. */
  function ParseInt32(s: string): (r: Parsed)
    ensures r.Value? ==> Int32Min <= r.n <= Int32Max
    ensures r.Failed? ==> r.fault != IndexOutOfRangeException
  {
    var t := TrimEnd(TrimStart(s));
    var signed := |t| > 0 && (t[0] == '-' || t[0] == '+');
    var digits := if signed then t[1..] else t;
    if digits == [] || !AllDigits(digits) then Failed(FormatException)
    else
      var v: int := if signed && t[0] == '-' then 0 - DigitsValue(digits) else DigitsValue(digits);
      if v < Int32Min || v > Int32Max then Failed(OverflowException) else Value(v)
  }

  /** int.Parse reads back what int.ToString prints, for every 32-bit value. */
  lemma ParseInt32OfIntToString(i: int)
    requires Int32Min <= i <= Int32Max
    ensures ParseInt32(IntToString(i)) == Value(i)
  {
    var s := IntToString(i);
    assert TrimStart(s) == s;
    assert TrimEnd(s) == s by {
      if i < 0 {
        assert s[|s| - 1] == NatToString(-i)[|NatToString(-i)| - 1];
      }
    }
    if i < 0 {
      DigitsValueOfNatToString(-i);
    } else {
      DigitsValueOfNatToString(i);
    }
  }

  /** An empty component is not a number. */
  lemma EmptyIsFormatError()
    ensures ParseInt32("") == Failed(FormatException)
  {
  }

  type Triple = (int, int, int)

  datatype VersionOutcome = Version(v: Triple) | Throws(fault: Fault)

  /** split[k], or the IndexOutOfRangeException of reading past the end. */
  function Component(split: seq<string>, k: nat): (r: Parsed)
    ensures k >= |split| <==> r == Failed(IndexOutOfRangeException)
  {
    if k < |split| then ParseInt32(split[k]) else Failed(IndexOutOfRangeException)
  }

  /** The catch clause: a FormatException becomes (0, 0, 0); anything else escapes. */
  function Caught(f: Fault): VersionOutcome {
    if f == FormatException then Version((0, 0, 0)) else Throws(f)
  }

  /** GetVersionNumber: split at '.', parse components 0, 1 and 2 in that order. */
  function GetVersionNumber(versionNode: string): (r: VersionOutcome)
    ensures r.Throws? ==> r.fault != FormatException
  {
    VersionOfComponents(Text.Split(versionNode, '.'))
  }

  /** The body of GetVersionNumber once the tag is split. */
  function VersionOfComponents(split: seq<string>): (r: VersionOutcome)
    ensures r.Throws? ==> r.fault != FormatException
  {
    var c0 := Component(split, 0);
    if c0.Failed? then Caught(c0.fault)
    else
      var c1 := Component(split, 1);
      if c1.Failed? then Caught(c1.fault)
      else
        var c2 := Component(split, 2);
        if c2.Failed? then Caught(c2.fault)
        else Version((c0.n, c1.n, c2.n))
  }

  /** The text of a version a.b.c. */
  function VersionText(v: Triple): string {
    IntToString(v.0) + "." + IntToString(v.1) + "." + IntToString(v.2)
  }

  lemma IntToStringHasNoDot(i: int)
    ensures '.' !in IntToString(i)
  {
  }

  /** The text of a version splits into the texts of its three numbers. */
  lemma SplitVersionText(v: Triple)
    ensures Text.Split(VersionText(v), '.') == [IntToString(v.0), IntToString(v.1), IntToString(v.2)]
  {
    var a, b, c := IntToString(v.0), IntToString(v.1), IntToString(v.2);
    IntToStringHasNoDot(v.0);
    IntToStringHasNoDot(v.1);
    IntToStringHasNoDot(v.2);
    assert VersionText(v) == a + ['.'] + (b + ['.'] + c);
    Text.SplitAtSeparator(a, b + ['.'] + c, '.');
    Text.SplitAtSeparator(b, c, '.');
    Text.SplitWithoutSeparator(a, '.');
    Text.SplitWithoutSeparator(b, '.');
    Text.SplitWithoutSeparator(c, '.');
  }

  /** "a.b.c" with 32-bit integer components reads back as (a, b, c). */
  lemma VersionTextRoundTrip(v: Triple)
    requires Int32Min <= v.0 <= Int32Max && Int32Min <= v.1 <= Int32Max && Int32Min <= v.2 <= Int32Max
    ensures GetVersionNumber(VersionText(v)) == Version(v)
  {
    SplitVersionText(v);
    ParseInt32OfIntToString(v.0);
    ParseInt32OfIntToString(v.1);
    ParseInt32OfIntToString(v.2);
  }

  /** Only the first three components are read. */
  lemma {:induction false} ComponentsAfterThirdIgnored(split: seq<string>, more: seq<string>)
    requires |split| >= 3
    ensures VersionOfComponents(split + more) == VersionOfComponents(split)
  {
    var all := split + more;
    assert all[0] == split[0] && all[1] == split[1] && all[2] == split[2];
  }

  /** Components after the third are never read: when s already has three or
      more, appending "." and anything leaves the outcome as it is. */
  lemma ExtraComponentsIgnored(s: string, rest: string)
    requires |Text.Split(s, '.')| >= 3
    ensures GetVersionNumber(s + "." + rest) == GetVersionNumber(s)
  {
    assert s + "." + rest == s + ['.'] + rest;
    Text.SplitAtSeparator(s, rest, '.');
    ComponentsAfterThirdIgnored(Text.Split(s, '.'), Text.Split(rest, '.'));
  }

  /** A four-component tag reads as its first three numbers. */
  lemma FourComponentsExample()
    ensures GetVersionNumber("1.2.3.4") == Version((1, 2, 3))
  {
    assert "1.2.3.4" == "1.2.3" + "." + "4";
    ExtraComponentsIgnored("1.2.3", "4");
    assert VersionText((1, 2, 3)) == "1.2.3" by {
      assert IntToString(1) == "1" && IntToString(2) == "2" && IntToString(3) == "3";
    }
    VersionTextRoundTrip((1, 2, 3));
  }

  /** When the first component that fails to parse, among the first three, is
      not a number at all, the outcome is (0, 0, 0). */
  lemma NonIntegerComponentGivesZero(s: string, k: nat)
    requires k < 3 && k < |Text.Split(s, '.')|
    requires forall j :: 0 <= j < k ==> ParseInt32(Text.Split(s, '.')[j]).Value?
    requires ParseInt32(Text.Split(s, '.')[k]) == Failed(FormatException)
    ensures GetVersionNumber(s) == Version((0, 0, 0))
  {
    var split := Text.Split(s, '.');
    if k == 2 {
      assert Component(split, 0).Value? && Component(split, 1).Value?;
    } else if k == 1 {
      assert Component(split, 0).Value?;
    }
  }

  /** Fewer than three components is not caught: when the ones present all
      parse, reading the next one throws IndexOutOfRangeException. */
  lemma TooFewComponentsThrows(s: string)
    requires |Text.Split(s, '.')| < 3
    requires forall j :: 0 <= j < |Text.Split(s, '.')| ==> ParseInt32(Text.Split(s, '.')[j]).Value?
    ensures GetVersionNumber(s) == Throws(IndexOutOfRangeException)
  {
    var split := Text.Split(s, '.');
    assert Component(split, 0).Value?;
    if |split| == 2 {
      assert Component(split, 1).Value?;
    }
  }

  /** The loop's break test: the release is at or below the running version,
      comparing major, then minor, then patch. */
  predicate NotNewer(check: Triple, curr: Triple) {
    check.0 < curr.0
    || (check.0 == curr.0 && check.1 < curr.1)
    || (check.0 == curr.0 && check.1 == curr.1 && check.2 <= curr.2)
  }

  /** The break test is the lexicographic order on triples: reflexive (so a
      release equal to the running version stops the listing), antisymmetric,
      transitive and total. */
  lemma NotNewerIsLexicographicOrder(a: Triple, b: Triple, c: Triple)
    ensures NotNewer(a, a)
    ensures NotNewer(a, b) && NotNewer(b, a) ==> a == b
    ensures NotNewer(a, b) && NotNewer(b, c) ==> NotNewer(a, c)
    ensures NotNewer(a, b) || NotNewer(b, a)
  {
  }

  datatype Release = Release(tag: string, body: string)

  /** The outcome of GetVersionNumber on each release's tag, in list order. */
  function VersionsOf(releases: seq<Release>): (vs: seq<VersionOutcome>)
    ensures |vs| == |releases|
    ensures forall i :: 0 <= i < |releases| ==> vs[i] == GetVersionNumber(releases[i].tag)
  {
    seq(|releases|, i requires 0 <= i < |releases| => GetVersionNumber(releases[i].tag))
  }

  /** How far the loop gets: the number of leading releases it lists, or the
      fault of a tag whose version number throws before the loop breaks. */
  datatype Listing = Shown(count: nat) | Aborted(fault: Fault)

  /** The listing of a list seen from n releases further back. */
  function Plus(n: nat, l: Listing): Listing {
    match l
    case Shown(c) => Shown(n + c)
    case Aborted(f) => Aborted(f)
  }

  /** The listing for the running version curr, given each release's version outcome. */
  function Listed(vs: seq<VersionOutcome>, curr: Triple): (l: Listing)
    ensures l.Shown? ==> l.count <= |vs|
  {
    if vs == [] then Shown(0)
    else
      match vs[0]
      case Throws(f) => Aborted(f)
      case Version(v) => if NotNewer(v, curr) then Shown(0) else Plus(1, Listed(vs[1..], curr))
  }

  /** A release is listed only when its tag gives a version strictly above curr. */
  predicate IsNewer(o: VersionOutcome, curr: Triple) {
    o.Version? && !NotNewer(o.v, curr)
  }

  predicate AllNewer(vs: seq<VersionOutcome>, curr: Triple, n: nat)
    requires n <= |vs|
  {
    forall i :: 0 <= i < n ==> IsNewer(vs[i], curr)
  }

  /** The listing is fixed by the first release that is not newer: when the
      first j outcomes are newer versions and the next one is not (or there is
      none), the loop lists exactly those j releases, unless the one at j
      threw, in which case its fault escapes. */
  lemma {:induction false} ListedStopsAtFirstNotNewer(vs: seq<VersionOutcome>, curr: Triple, j: nat)
    requires j <= |vs| && AllNewer(vs, curr, j)
    requires j < |vs| ==> !IsNewer(vs[j], curr)
    ensures Listed(vs, curr) ==
      if j == |vs| || vs[j].Version? then Shown(j) else Aborted(vs[j].fault)
  {
    if j > 0 {
      assert IsNewer(vs[0], curr);
      forall i | 0 <= i < j - 1 ensures IsNewer(vs[1..][i], curr) {
        assert vs[1..][i] == vs[i + 1];
      }
      if j - 1 < |vs| - 1 {
        assert vs[1..][j - 1] == vs[j];
      }
      ListedStopsAtFirstNotNewer(vs[1..], curr, j - 1);
    }
  }

  /** What the loop lists is a leading run of the releases, each strictly
      newer than curr, ended by the end of the list or by a release that is
      not newer; a fault escapes only from the first release that is not newer. */
  lemma {:induction false} ListedIsNewerPrefix(vs: seq<VersionOutcome>, curr: Triple)
    ensures var l := Listed(vs, curr);
      l.Shown? ==> l.count <= |vs| && AllNewer(vs, curr, l.count)
                   && (l.count < |vs| ==> vs[l.count].Version? && NotNewer(vs[l.count].v, curr))
    ensures var l := Listed(vs, curr);
      l.Aborted? ==> exists j :: 0 <= j < |vs| && AllNewer(vs, curr, j) && vs[j] == Throws(l.fault)
  {
    if vs != [] && IsNewer(vs[0], curr) {
      var rest := vs[1..];
      ListedIsNewerPrefix(rest, curr);
      var l := Listed(rest, curr);
      if l.Shown? {
        forall i | 0 <= i < l.count + 1 ensures IsNewer(vs[i], curr) {
          if i > 0 {
            assert vs[i] == rest[i - 1];
          }
        }
        if l.count + 1 < |vs| {
          assert vs[l.count + 1] == rest[l.count];
        }
      } else {
        var j :| 0 <= j < |rest| && AllNewer(rest, curr, j) && rest[j] == Throws(l.fault);
        assert vs[j + 1] == rest[j];
        forall i | 0 <= i < j + 1 ensures IsNewer(vs[i], curr) {
          if i > 0 {
            assert vs[i] == rest[i - 1];
          }
        }
        assert AllNewer(vs, curr, j + 1);
      }
    }
  }

  /** A release whose tag equals the running version is never listed, and nothing after it is. */
  lemma {:induction false} EqualVersionIsNeverListed(vs: seq<VersionOutcome>, curr: Triple, k: nat)
    requires k < |vs| && vs[k] == Version(curr)
    ensures Listed(vs, curr).Shown? ==> Listed(vs, curr).count <= k
  {
    if IsNewer(vs[0], curr) {
      assert vs[1..][k - 1] == vs[k];
      EqualVersionIsNeverListed(vs[1..], curr, k - 1);
    }
  }

  /** The five lines the loop appends for one release; the body's Markdown
      rendering is the parameter markdown. */
  function Block(r: Release, markdown: string -> string): seq<string> {
    [FontOpen, "<h3>" + r.tag + "</h3>", markdown(r.body), "", "</font>"]
  }

  const FontOpen: string := "<font face=\"Arial\" size=2>"

  function Render(rs: seq<Release>, markdown: string -> string): seq<string> {
    if rs == [] then [] else Render(rs[..|rs| - 1], markdown) + Block(rs[|rs| - 1], markdown)
  }

  /** Each listed release contributes one block of five lines, in order, whose
      second line holds its tag inside <h3>. */
  lemma {:induction false} RenderShape(rs: seq<Release>, markdown: string -> string, i: nat)
    requires i < |rs|
    ensures |Render(rs, markdown)| == 5 * |rs|
    ensures Render(rs, markdown)[5 * i + 1] == "<h3>" + rs[i].tag + "</h3>"
  {
    var pre := rs[..|rs| - 1];
    if i < |rs| - 1 {
      RenderShape(pre, markdown, i);
      assert pre[i] == rs[i];
    } else if pre != [] {
      RenderShape(pre, markdown, 0);
    }
  }

  /** What the window shows: the listing's lines, or the fault that escapes. */
  datatype Page = Page(lines: seq<string>) | Crashed(fault: Fault)

  function ReleasePage(currentVersion: string, releases: seq<Release>, markdown: string -> string): Page {
    match GetVersionNumber(currentVersion)
    case Throws(f) => Crashed(f)
    case Version(curr) =>
      match Listed(VersionsOf(releases), curr)
      case Shown(n) => Page(Render(releases[..n], markdown))
      case Aborted(f) => Crashed(f)
  }

  /** The page once the running version is known to be curr. */
  lemma PageForVersion(currentVersion: string, releases: seq<Release>, markdown: string -> string, curr: Triple)
    requires GetVersionNumber(currentVersion) == Version(curr)
    ensures var l := Listed(VersionsOf(releases), curr);
      ReleasePage(currentVersion, releases, markdown) ==
        if l.Shown? then Page(Render(releases[..l.count], markdown)) else Crashed(l.fault)
  {
  }

  /** One step of the listing, taken at index i. */
  lemma ListedAt(vs: seq<VersionOutcome>, curr: Triple, i: nat)
    requires i < |vs|
    ensures Listed(vs[i..], curr) ==
      if vs[i].Throws? then Aborted(vs[i].fault)
      else if NotNewer(vs[i].v, curr) then Shown(0)
      else Plus(1, Listed(vs[i + 1..], curr))
  {
    assert vs[i..][0] == vs[i] && vs[i..][1..] == vs[i + 1..];
  }

  lemma RenderStep(rs: seq<Release>, i: nat, markdown: string -> string)
    requires i < |rs|
    ensures Render(rs[..i + 1], markdown) == Render(rs[..i], markdown) + Block(rs[i], markdown)
  {
    assert rs[..i + 1][..i] == rs[..i];
  }

  /** ReleaseHandler's loop over the releases, with its early break. */
  method ReleaseHandler(currentVersion: string, releases: seq<Release>, markdown: string -> string)
    returns (page: Page)
    ensures page == ReleasePage(currentVersion, releases, markdown)
  {
    var currV := GetVersionNumber(currentVersion);
    if currV.Throws? {
      return Crashed(currV.fault);
    }
    var curr := currV.v;
    ghost var vs := VersionsOf(releases);
    PageForVersion(currentVersion, releases, markdown, curr);
    var allVersionsText: seq<string> := [];
    var i := 0;
    while i < |releases|
      invariant 0 <= i <= |releases|
      invariant allVersionsText == Render(releases[..i], markdown)
      invariant Listed(vs, curr) == Plus(i, Listed(vs[i..], curr))
    {
      var checkVersion := GetVersionNumber(releases[i].tag);
      assert checkVersion == vs[i];
      ListedAt(vs, curr, i);
      if checkVersion.Throws? {
        return Crashed(checkVersion.fault);
      }
      if NotNewer(checkVersion.v, curr) {
        break;
      }
      allVersionsText := allVersionsText + Block(releases[i], markdown);
      RenderStep(releases, i, markdown);
      i := i + 1;
    }
    if i == |releases| {
      assert vs[i..] == [];
    }
    assert Listed(vs, curr) == Shown(i);
    page := Page(allVersionsText);
  }
}
