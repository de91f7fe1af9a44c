/** Version strings of artifacts (fatbuildr/registry/formats/__init__.py) and the
    build number that source package builds take from the published version
    (fatbuildr/builds/formats/rpm.py and deb.py). */
module ArtifactVersion {
  import opened Wrappers
  import opened Text

  /** The Unicode character classes \w and \d of the regular expressions: what
      the proofs need of them is stated by Sound. */
  datatype Classes = Classes(word: char -> bool, digit: char -> Option<nat>)

  ghost predicate Sound(c: Classes) {
    && !c.word('-') && !c.word('.') && !c.word('+') && !c.word('\n')
    && (forall d: nat :: d < 10 ==> c.digit(Digit(d)) == Some(d))
  }

  datatype Version = Version(main: string, release: string, dist: Option<string>, build: int)

  /** __eq__ does not compare build numbers. */
  predicate Same(v: Version, w: Version) {
    v.main == w.main && v.release == w.release && v.dist == w.dist
  }

  // ---- printing ----

  function FullRelease(v: Version): string {
    v.release
    + (if v.dist.Some? then "." + v.dist.value else "")
    + (if v.build >= 0 then "+build" + Decimal(v.build) else "")
  }

  function Full(v: Version): string {
    v.main + "-" + FullRelease(v)
  }

  // ---- parsing ----

  /** `(.+)-(.+)` takes the last dash that leaves a character on each side. */
  function SplitDash(l: string, p: nat): (r: Option<nat>)
    requires p <= |l|
    ensures r.Some? ==> 1 <= r.value < p && r.value + 1 < |l| && l[r.value] == '-'
    ensures forall k :: (if r.Some? then r.value + 1 else 1) <= k < p && k + 1 < |l| ==> l[k] != '-'
  {
    if p <= 1 then None
    else if p < |l| && l[p - 1] == '-' then Some(p - 1)
    else SplitDash(l, p - 1)
  }

  /** How many characters a greedy `\w*` takes. */
  function WordRun(c: Classes, s: string): (n: nat)
    ensures n <= |s|
    ensures forall k :: 0 <= k < n ==> c.word(s[k])
    ensures n < |s| ==> !c.word(s[n])
  {
    if s == [] || !c.word(s[0]) then 0 else 1 + WordRun(c, s[1..])
  }

  function DigitRun(c: Classes, s: string): (n: nat)
    ensures n <= |s|
    ensures forall k :: 0 <= k < n ==> c.digit(s[k]).Some?
    ensures n < |s| ==> c.digit(s[n]).None?
  {
    if s == [] || c.digit(s[0]).None? then 0 else 1 + DigitRun(c, s[1..])
  }

  /** int() of a string of decimal digits. */
  function Value(c: Classes, s: string): nat
    requires forall k :: 0 <= k < |s| ==> c.digit(s[k]).Some?
  {
    if s == [] then 0 else 10 * Value(c, s[..|s| - 1]) + c.digit(s[|s| - 1]).value
  }

  function ParseBuild(c: Classes, s: string): int {
    if "+build" <= s && DigitRun(c, s[6..]) > 0 then Value(c, s[6..6 + DigitRun(c, s[6..])]) else -1
  }

  /** The release expression is lazy and not anchored at the end, so the release is
      always one character; what the optional groups do not match is dropped. */
  function ParseRelease(c: Classes, main: string, r: string): Version
    requires r != []
  {
    var rest := r[1..];
    if rest != [] && rest[0] == '.' && WordRun(c, rest[1..]) > 0 then
      var n := WordRun(c, rest[1..]);
      Version(main, r[..1], Some(rest[1..1 + n]), ParseBuild(c, rest[1 + n..]))
    else
      Version(main, r[..1], None, ParseBuild(c, rest))
  }

  /** ArtifactVersion(s), None when it raises. */
  function Parse(c: Classes, s: string): Option<Version> {
    var l := Line(s);
    match SplitDash(l, |l|)
    case None => None
    case Some(p) => Some(ParseRelease(c, l[..p], l[p + 1..]))
  }

  predicate IsWord(c: Classes, s: string) {
    s != [] && forall k :: 0 <= k < |s| ==> c.word(s[k])
  }

  // ---- what is parsed, in the terms of the regular expressions ----

  /** The line is `main`, a dash and `rel`, at the last dash that leaves a character on
      each side. */
  ghost predicate SplitAs(l: string, main: string, rel: string) {
    && l == main + "-" + rel && main != [] && rel != []
    && forall k :: 0 <= k < |rel| - 1 ==> rel[k] != '-'
  }

  /** After the release: a dot and as many word characters as there are, at least one;
      or no tag. */
  ghost predicate TagIs(c: Classes, rest: string, dist: Option<string>, tail: string) {
    match dist
    case None => tail == rest && !(|rest| >= 2 && rest[0] == '.' && c.word(rest[1]))
    case Some(w) => IsWord(c, w) && rest == "." + w + tail && (tail == [] || !c.word(tail[0]))
  }

  ghost predicate Numbered(c: Classes, tail: string, digits: string, end: string) {
    && tail == "+build" + digits + end && digits != []
    && (forall k :: 0 <= k < |digits| ==> c.digit(digits[k]).Some?)
    && (end == [] || c.digit(end[0]).None?)
  }

  /** After the tag: "+build" and as many digits as there are, at least one; or -1,
      whatever follows. */
  ghost predicate BuildIs(c: Classes, tail: string, build: int) {
    if |tail| >= 7 && tail[..6] == "+build" && c.digit(tail[6]).Some?
    then exists digits, end :: Numbered(c, tail, digits, end) && build == Value(c, digits)
    else build == -1
  }

  ghost predicate ReadsAs(c: Classes, s: string, v: Version) {
    exists rel, tail ::
      && SplitAs(Line(s), v.main, rel) && v.release == [rel[0]]
      && TagIs(c, rel[1..], v.dist, tail) && BuildIs(c, tail, v.build)
  }

  lemma BuildMeans(c: Classes, tail: string)
    ensures BuildIs(c, tail, ParseBuild(c, tail))
  {
    if |tail| >= 7 && tail[..6] == "+build" && c.digit(tail[6]).Some? {
      var s := tail[6..];
      var n := DigitRun(c, s);
      assert s[0] == tail[6];
      assert s == s[..n] + s[n..] && tail == tail[..6] + s;
      assert s[..n] == tail[6..6 + n];
      assert Numbered(c, tail, s[..n], s[n..]);
    } else if "+build" <= tail && |tail| >= 7 {
      assert tail[6..][0] == tail[6];
    }
  }

  lemma ReleaseMeans(c: Classes, main: string, rel: string) returns (tail: string)
    requires rel != []
    ensures var v := ParseRelease(c, main, rel);
            && v.main == main && v.release == [rel[0]]
            && TagIs(c, rel[1..], v.dist, tail) && BuildIs(c, tail, v.build)
  {
    var rest := rel[1..];
    if rest != [] && rest[0] == '.' && WordRun(c, rest[1..]) > 0 {
      var n := WordRun(c, rest[1..]);
      tail := rest[1 + n..];
      TagMeans(c, rest, n);
    } else {
      tail := rest;
      assert |rest| >= 2 ==> rest[1..][0] == rest[1];
    }
    BuildMeans(c, tail);
  }

  lemma TagMeans(c: Classes, rest: string, n: nat)
    requires rest != [] && rest[0] == '.' && n == WordRun(c, rest[1..]) > 0
    ensures TagIs(c, rest, Some(rest[1..1 + n]), rest[1 + n..])
  {
    var after := rest[1..];
    assert after[..n] == rest[1..1 + n] && after[n..] == rest[1 + n..];
    assert rest == "." + after[..n] + after[n..];
  }

  lemma SplitMeans(l: string, p: nat)
    requires SplitDash(l, |l|) == Some(p)
    ensures SplitAs(l, l[..p], l[p + 1..])
  {
    var rel := l[p + 1..];
    assert l == l[..p] + "-" + rel;
    assert forall k :: 0 <= k < |rel| - 1 ==> rel[k] == l[p + 1 + k];
  }

  /** What is parsed is what the expressions say. */
  lemma ParsedMeans(c: Classes, s: string)
    requires Parse(c, s).Some?
    ensures ReadsAs(c, s, Parse(c, s).value)
  {
    var l := Line(s);
    var p := SplitDash(l, |l|).value;
    SplitMeans(l, p);
    var tail := ReleaseMeans(c, l[..p], l[p + 1..]);
  }

  /** No dash that leaves a character on each side. */
  predicate NoDash(l: string) {
    forall k :: 1 <= k < |l| - 1 ==> l[k] != '-'
  }

  lemma NoSplit(l: string)
    ensures SplitDash(l, |l|) == None <==> NoDash(l)
  {
    if SplitDash(l, |l|).Some? {
      var p := SplitDash(l, |l|).value;
      assert 1 <= p < |l| - 1 && l[p] == '-';
    }
  }

  lemma RefusedMeans(c: Classes, s: string)
    ensures Parse(c, s) == None <==> NoDash(Line(s))
  {
    NoSplit(Line(s));
  }

  // ---- the round trip, exactly ----

  predicate WellFormed(c: Classes, v: Version) {
    && v.main != [] && '\n' !in v.main
    && |v.release| == 1 && v.release != "\n"
    && (v.dist.Some? ==> IsWord(c, v.dist.value))
    && v.build >= -1
    && (v.release == "-" ==> v.dist == None && v.build == -1)
  }

  lemma ReleaseIsWellFormed(c: Classes, main: string, r: string)
    requires main != [] && '\n' !in main
    requires r != [] && r[0] != '\n' && (r[0] == '-' ==> |r| == 1)
    ensures WellFormed(c, ParseRelease(c, main, r))
  {
    assert r[..1] == [r[0]];
    assert |r| == 1 ==> r[1..] == [];
  }

  lemma ParsedIsWellFormed(c: Classes, s: string)
    requires Parse(c, s).Some?
    ensures WellFormed(c, Parse(c, s).value)
  {
    var l := Line(s);
    var p := SplitDash(l, |l|).value;
    var r := l[p + 1..];
    assert r[0] == l[p + 1] && r[0] in l;
    assert '\n' !in l[..p];
    ReleaseIsWellFormed(c, l[..p], r);
  }

  lemma {:induction false} DecimalDigits(c: Classes, n: nat)
    requires Sound(c)
    ensures forall k :: 0 <= k < |Decimal(n)| ==> c.digit(Decimal(n)[k]).Some?
    ensures Value(c, Decimal(n)) == n
  {
    if n >= 10 {
      DecimalDigits(c, n / 10);
      assert Decimal(n)[..|Decimal(n)| - 1] == Decimal(n / 10);
    } else {
      assert Decimal(n)[..0] == [];
      assert c.digit(Digit(n)) == Some(n);
    }
  }

  lemma DigitRunAll(c: Classes, s: string)
    requires forall k :: 0 <= k < |s| ==> c.digit(s[k]).Some?
    ensures DigitRun(c, s) == |s|
  {
  }

  lemma ParseBuildOfPrinted(c: Classes, build: int)
    requires Sound(c) && build >= -1
    ensures ParseBuild(c, if build >= 0 then "+build" + Decimal(build) else "") == build
  {
    if build >= 0 {
      var s := "+build" + Decimal(build);
      DecimalDigits(c, build);
      DigitRunAll(c, Decimal(build));
      assert s[6..] == Decimal(build);
      assert s[6..6 + |Decimal(build)|] == Decimal(build);
    }
  }

  lemma WordRunStops(c: Classes, w: string, rest: string)
    requires IsWord(c, w)
    requires rest == [] || !c.word(rest[0])
    ensures WordRun(c, w + rest) == |w|
  {
    assert forall k :: 0 <= k < |w| ==> (w + rest)[k] == w[k];
    assert rest != [] ==> (w + rest)[|w|] == rest[0];
    assert WordRun(c, w + rest) >= |w|;
  }

  lemma ParseReleaseParts(c: Classes, main: string, ch: char, dist: Option<string>, build: string)
    requires Sound(c)
    requires dist.Some? ==> IsWord(c, dist.value)
    requires build == [] || build[0] == '+'
    ensures var r := [ch] + (if dist.Some? then "." + dist.value else "") + build;
            ParseRelease(c, main, r) == Version(main, [ch], dist, ParseBuild(c, build))
  {
    var r := [ch] + (if dist.Some? then "." + dist.value else "") + build;
    if dist.Some? {
      var w := dist.value;
      assert r[1..] == "." + (w + build);
      assert r[1..][1..] == w + build;
      WordRunStops(c, w, build);
      assert r[1..][1..1 + |w|] == w;
      assert r[1..][1 + |w|..] == build;
    } else {
      assert r[1..] == build;
    }
  }

  lemma ParseReleaseOfPrinted(c: Classes, v: Version)
    requires Sound(c) && WellFormed(c, v)
    ensures ParseRelease(c, v.main, FullRelease(v)) == v
  {
    var build := if v.build >= 0 then "+build" + Decimal(v.build) else "";
    ParseBuildOfPrinted(c, v.build);
    ParseReleaseParts(c, v.main, v.release[0], v.dist, build);
    assert v.release == [v.release[0]];
  }

  lemma LastDash(main: string, r: string)
    requires main != [] && r != [] && ('-' !in r || r == "-")
    ensures var l := main + "-" + r;
            SplitDash(l, |l|) == Some(|main|) && l[..|main|] == main && l[|main| + 1..] == r
  {
    var l, m := main + "-" + r, |main|;
    assert forall k :: m < k < |l| ==> l[k] == r[k - m - 1] && l[k] in r;
    assert l[m] == '-';
    var p := SplitDash(l, |l|);
    assert p.Some? && p.value >= m;
  }

  lemma FullReleaseIsClean(c: Classes, v: Version)
    requires Sound(c) && WellFormed(c, v)
    ensures FullRelease(v) != [] && '\n' !in FullRelease(v)
    ensures '-' !in FullRelease(v) || FullRelease(v) == "-"
  {
    var d := if v.dist.Some? then "." + v.dist.value else "";
    assert forall ch :: ch in d ==> ch == '.' || c.word(ch);
    assert v.release == [v.release[0]];
  }

  /** Parsing a printed version gives it back if and only if it is well formed,
      build numbers of any length included. */
  lemma RoundTrip(c: Classes, v: Version)
    requires Sound(c)
    ensures Parse(c, Full(v)) == Some(v) <==> WellFormed(c, v)
  {
    if Parse(c, Full(v)) == Some(v) {
      ParsedIsWellFormed(c, Full(v));
    }
    if WellFormed(c, v) {
      FullReleaseIsClean(c, v);
      LineOfClean(Full(v));
      LastDash(v.main, FullRelease(v));
      ParseReleaseOfPrinted(c, v);
    }
  }

  /** Printing and parsing again changes nothing to any accepted string. */
  lemma ReparseIsStable(c: Classes, s: string)
    requires Sound(c) && Parse(c, s).Some?
    ensures Parse(c, Full(Parse(c, s).value)) == Parse(c, s)
  {
    ParsedIsWellFormed(c, s);
    RoundTrip(c, Parse(c, s).value);
  }

  /** Releases of more than one character are cut: "12" and "13" of the same main
      version are the same version, and a distribution tag after them is lost. */
  lemma LongReleasesCollide(c: Classes, main: string, a: string, b: string)
    requires Sound(c)
    requires main != [] && '\n' !in main
    requires |a| >= 2 && |b| >= 2 && a[0] == b[0]
    requires a[1] != '.' && b[1] != '.'
    requires '-' !in a && '\n' !in a && '-' !in b && '\n' !in b
    ensures Parse(c, main + "-" + a).Some? && Parse(c, main + "-" + b).Some?
    ensures Same(Parse(c, main + "-" + a).value, Parse(c, main + "-" + b).value)
  {
    CutRelease(c, main, a);
    CutRelease(c, main, b);
  }

  lemma CutRelease(c: Classes, main: string, a: string)
    requires main != [] && '\n' !in main
    requires |a| >= 2 && a[1] != '.' && '-' !in a && '\n' !in a
    ensures Parse(c, main + "-" + a).Some?
    ensures Same(Parse(c, main + "-" + a).value, Version(main, [a[0]], None, -1))
  {
    LineOfClean(main + "-" + a);
    LastDash(main, a);
    assert a[..1] == [a[0]];
  }

  // ---- rebuilds ----

  function Bump(existing: Version, v: Version): Version {
    if Same(existing, v) then v.(build := existing.build + 1) else v
  }

  /** The version of a build: the target version with the distribution tag, and the
      build number after that of the published version when the two are the same.
      None when a version string is refused. */
  function NextVersion(c: Classes, published: Option<string>, target: string, tag: string): Option<Version> {
    match Parse(c, target)
    case None => None
    case Some(t) =>
      var v := t.(dist := Some(tag));
      match published
      case None => Some(v)
      case Some(s) =>
        match Parse(c, s)
        case None => None
        case Some(existing) => Some(Bump(existing, v))
  }

  function LastOf(before: seq<string>): Option<string> {
    if before == [] then None else Some(before[|before| - 1])
  }

  /** The string the next build publishes, after those of `before`. */
  function PublishNext(c: Classes, before: seq<string>, target: string, tag: string): Option<string> {
    match NextVersion(c, LastOf(before), target, tag)
    case None => None
    case Some(v) => Some(Full(v))
  }

  /** The strings published by `n` successive builds of one target version. */
  function Publish(c: Classes, target: string, tag: string, n: nat): Option<seq<string>> {
    if n == 0 then Some([]) else PublishAfter(c, Publish(c, target, tag, n - 1), target, tag)
  }

  function PublishAfter(c: Classes, before: Option<seq<string>>, target: string, tag: string): Option<seq<string>> {
    match before
    case None => None
    case Some(strings) =>
      match PublishNext(c, strings, target, tag)
      case None => None
      case Some(s) => Some(strings + [s])
  }

  predicate Rebuildable(c: Classes, v: Version, tag: string) {
    IsWord(c, tag) && v.release != "-"
  }

  /** Reading back the published string finds the same version exactly when the tag
      is a word and the release is not a dash. */
  lemma PublishedIsSame(c: Classes, t: Version, tag: string, build: int)
    requires Sound(c) && WellFormed(c, t) && build >= -1
    ensures var v := t.(dist := Some(tag), build := build);
            && Parse(c, Full(v)).Some?
            && (Same(Parse(c, Full(v)).value, v) <==> Rebuildable(c, t, tag))
            && (Rebuildable(c, t, tag) ==> Parse(c, Full(v)).value.build == build)
  {
    var v := t.(dist := Some(tag), build := build);
    if Rebuildable(c, t, tag) {
      RoundTrip(c, v);
    } else {
      var l := Line(Full(v));
      var m := |t.main|;
      assert forall k :: 0 <= k < m ==> Full(v)[k] == t.main[k] && Full(v)[k] in t.main;
      assert Full(v)[m + 1] == t.release[0] && t.release == [t.release[0]];
      assert |l| >= m + 2;
      assert l[m] == Full(v)[m] == '-';
      assert SplitDash(l, |l|).Some?;
      ParsedIsWellFormed(c, Full(v));
    }
  }

  /** The version of the build number `k` of a run. */
  function BuildAt(c: Classes, t: Version, tag: string, k: nat): Version {
    t.(dist := Some(tag), build := t.build + if Rebuildable(c, t, tag) then k else 0)
  }

  /** `existing` is what the string published by the build number `k` reads as. */
  lemma BumpIs(c: Classes, t: Version, tag: string, k: nat, existing: Version)
    requires Same(existing, BuildAt(c, t, tag, k)) <==> Rebuildable(c, t, tag)
    requires Rebuildable(c, t, tag) ==> existing.build == t.build + k
    ensures Bump(existing, t.(dist := Some(tag))) == BuildAt(c, t, tag, k + 1)
  {
  }

  lemma NextBuild(c: Classes, target: string, tag: string, k: nat)
    requires Sound(c) && Parse(c, target).Some?
    ensures var t := Parse(c, target).value;
            NextVersion(c, Some(Full(BuildAt(c, t, tag, k))), target, tag) == Some(BuildAt(c, t, tag, k + 1))
  {
    ParsedIsWellFormed(c, target);
    var t := Parse(c, target).value;
    var b := BuildAt(c, t, tag, k);
    PublishedIsSame(c, t, tag, b.build);
    var s := Full(b);
    BumpIs(c, t, tag, k, Parse(c, s).value);
  }

  lemma FirstBuild(c: Classes, target: string, tag: string)
    requires Parse(c, target).Some?
    ensures NextVersion(c, None, target, tag) == Some(BuildAt(c, Parse(c, target).value, tag, 0))
  {
  }

  lemma PublishNextOf(c: Classes, before: seq<string>, target: string, tag: string, next: Version)
    requires NextVersion(c, LastOf(before), target, tag) == Some(next)
    ensures PublishNext(c, before, target, tag) == Some(Full(next))
  {
  }

  lemma PublishFirst(c: Classes, target: string, tag: string)
    requires Parse(c, target).Some?
    ensures PublishNext(c, [], target, tag) == Some(Full(BuildAt(c, Parse(c, target).value, tag, 0)))
  {
    FirstBuild(c, target, tag);
    PublishNextOf(c, [], target, tag, BuildAt(c, Parse(c, target).value, tag, 0));
  }

  lemma PublishLater(c: Classes, before: seq<string>, k: nat, target: string, tag: string)
    requires Sound(c) && Parse(c, target).Some?
    requires LastOf(before) == Some(Full(BuildAt(c, Parse(c, target).value, tag, k)))
    ensures PublishNext(c, before, target, tag) == Some(Full(BuildAt(c, Parse(c, target).value, tag, k + 1)))
  {
    NextBuild(c, target, tag, k);
    PublishNextOf(c, before, target, tag, BuildAt(c, Parse(c, target).value, tag, k + 1));
  }

  /** What `n` builds of version `t` are expected to publish. */
  function Expected(c: Classes, t: Version, tag: string, n: nat): (strings: seq<string>)
    ensures |strings| == n
    ensures forall k :: 0 <= k < n ==> strings[k] == Full(BuildAt(c, t, tag, k))
  {
    seq(n, k requires 0 <= k < n => Full(BuildAt(c, t, tag, k)))
  }

  lemma {:induction false} PublishSteps(c: Classes, target: string, tag: string, n: nat)
    requires Sound(c) && Parse(c, target).Some?
    ensures Publish(c, target, tag, n) == Some(Expected(c, Parse(c, target).value, tag, n))
  {
    if n > 0 {
      var t := Parse(c, target).value;
      PublishSteps(c, target, tag, n - 1);
      PublishOne(c, target, tag, n - 1);
      ExpectedNext(c, t, tag, n - 1);
      AfterExpected(c, Expected(c, t, tag, n - 1), target, tag, Full(BuildAt(c, t, tag, n - 1)));
    }
  }

  lemma AfterExpected(c: Classes, before: seq<string>, target: string, tag: string, next: string)
    requires PublishNext(c, before, target, tag) == Some(next)
    ensures PublishAfter(c, Some(before), target, tag) == Some(before + [next])
  {
  }

  /** The build number `n`, after `n` builds. */
  lemma PublishOne(c: Classes, target: string, tag: string, n: nat)
    requires Sound(c) && Parse(c, target).Some?
    ensures var t := Parse(c, target).value;
            PublishNext(c, Expected(c, t, tag, n), target, tag) == Some(Full(BuildAt(c, t, tag, n)))
  {
    var before := Expected(c, Parse(c, target).value, tag, n);
    if n == 0 {
      assert before == [];
      PublishFirst(c, target, tag);
    } else {
      PublishLater(c, before, n - 1, target, tag);
    }
  }

  lemma ExpectedNext(c: Classes, t: Version, tag: string, n: nat)
    ensures Expected(c, t, tag, n + 1) == Expected(c, t, tag, n) + [Full(BuildAt(c, t, tag, n))]
  {
  }

  lemma ExpectedReadsBack(c: Classes, t: Version, tag: string, k: nat)
    requires Sound(c) && WellFormed(c, t) && Rebuildable(c, t, tag)
    ensures Parse(c, Full(BuildAt(c, t, tag, k))) == Some(BuildAt(c, t, tag, k))
  {
    RoundTrip(c, BuildAt(c, t, tag, k));
  }

  lemma ExpectedDiffer(c: Classes, t: Version, tag: string, i: nat, j: nat)
    requires Sound(c) && WellFormed(c, t) && Rebuildable(c, t, tag) && i < j
    ensures Full(BuildAt(c, t, tag, i)) != Full(BuildAt(c, t, tag, j))
  {
    ExpectedReadsBack(c, t, tag, i);
    ExpectedReadsBack(c, t, tag, j);
  }

  lemma ExpectedDistinct(c: Classes, t: Version, tag: string, n: nat)
    requires Sound(c) && WellFormed(c, t) && n >= 2
    ensures Distinct(Expected(c, t, tag, n)) <==> Rebuildable(c, t, tag)
  {
    var strings := Expected(c, t, tag, n);
    if Rebuildable(c, t, tag) {
      forall i, j | 0 <= i < j < n
        ensures strings[i] != strings[j]
      {
        ExpectedDiffer(c, t, tag, i, j);
      }
    } else {
      assert strings[0] == strings[1];
    }
  }

  /** Over any run of builds of one target version: the published strings are
      pairwise distinct if and only if the distribution tag is a word and the
      release is not a dash; then the build numbers read back follow each other
      from that of the target version (-1 when it has none), and otherwise every
      build publishes the same string again. */
  lemma RebuildsAreDistinct(c: Classes, target: string, tag: string, n: nat) returns (strings: seq<string>)
    requires Sound(c) && Parse(c, target).Some? && n >= 2
    ensures Publish(c, target, tag, n) == Some(strings) && |strings| == n
    ensures Distinct(strings) <==> Rebuildable(c, Parse(c, target).value, tag)
    ensures forall k :: 0 <= k < n ==>
              if Rebuildable(c, Parse(c, target).value, tag)
              then Parse(c, strings[k]) == Some(BuildAt(c, Parse(c, target).value, tag, k))
              else strings[k] == strings[0]
  {
    var t := Parse(c, target).value;
    ParsedIsWellFormed(c, target);
    PublishSteps(c, target, tag, n);
    strings := Expected(c, t, tag, n);
    ExpectedDistinct(c, t, tag, n);
    forall k | 0 <= k < n
      ensures if Rebuildable(c, t, tag) then Parse(c, strings[k]) == Some(BuildAt(c, t, tag, k))
              else strings[k] == strings[0]
    {
      if Rebuildable(c, t, tag) {
        ExpectedReadsBack(c, t, tag, k);
      }
    }
  }

  /** What a build publishes: its target with the tag, and the build number after that of
      the published version when main version, release and tag agree with it, its own
      otherwise; None when the published version is refused. */
  ghost predicate PublishedAs(c: Classes, existing: Option<string>, target: Version, tag: string, full: Option<string>) {
    var published := if existing.None? then None else Parse(c, existing.value);
    if existing.Some? && published.None? then full == None
    else
      var build :=
        if published.Some? && published.value.main == target.main && published.value.release == target.release
           && published.value.dist == Some(tag)
        then published.value.build + 1 else target.build;
      full == Some(target.main + "-" + target.release + "." + tag
                   + if build >= 0 then "+build" + Decimal(build) else "")
  }

  lemma FullIs(main: string, release: string, tag: string, build: int)
    ensures Full(Version(main, release, Some(tag), build))
            == main + "-" + release + "." + tag + if build >= 0 then "+build" + Decimal(build) else ""
  {
    var b := if build >= 0 then "+build" + Decimal(build) else "";
    assert main + "-" + (release + ("." + tag) + b) == main + "-" + release + "." + tag + b;
  }

  /** The version attribute of a build, assigned by prepare() then _build_src(). */
  class ArtifactBuild {
    var version: Option<Version>

    constructor ()
      ensures version == None
    {
      version := None;
    }

    /** prepare(), as far as the version: false when the target is refused. */
    method Prepare(c: Classes, target: string, tag: string) returns (ok: bool)
      modifies this
      ensures ok <==> version.Some?
      ensures version == NextVersion(c, None, target, tag)
      ensures var t := Parse(c, target);
              version == if t.None? then None else Some(Version(t.value.main, t.value.release, Some(tag), t.value.build))
    {
      version := Parse(c, target);
      ok := version.Some?;
      if ok {
        version := Some(version.value.(dist := Some(tag)));
      }
    }

    /** The version part of _build_src(), alike for RPM and Deb packages: what is
        published next, None when the published version is refused. */
    method BuildSource(c: Classes, existing: Option<string>, ghost target: string, ghost tag: string)
      returns (full: Option<string>)
      requires version.Some? && version == NextVersion(c, None, target, tag)
      modifies this
      ensures full == match NextVersion(c, existing, target, tag)
                      case None => None
                      case Some(v) => Some(Full(v))
      ensures full.Some? ==> version == NextVersion(c, existing, target, tag)
      ensures PublishedAs(c, existing, Parse(c, target).value, tag, full)
    {
      if existing.Some? {
        var existingVersion := Parse(c, existing.value);
        if existingVersion == None {
          return None;
        }
        if Same(existingVersion.value, version.value) {
          version := Some(version.value.(build := existingVersion.value.build + 1));
        }
      }
      full := Some(Full(version.value));
      FullIs(version.value.main, version.value.release, tag, version.value.build);
    }
  }

  /** One build on a registry whose last published string is that of `before`. */
  method Build(c: Classes, before: seq<string>, target: string, tag: string) returns (full: Option<string>)
    ensures full == PublishNext(c, before, target, tag)
    ensures full.Some? ==> Parse(c, target).Some?
    ensures Parse(c, target).Some? ==> PublishedAs(c, LastOf(before), Parse(c, target).value, tag, full)
  {
    var build := new ArtifactBuild();
    var ok := build.Prepare(c, target, tag);
    if !ok {
      return None;
    }
    full := build.BuildSource(c, LastOf(before), target, tag);
  }

  /** `n` builds in a row of one target version, each reading back the last published
      string, until one is refused: the strings that RebuildsAreDistinct speaks of. */
  method Rebuild(c: Classes, target: string, tag: string, n: nat) returns (published: Option<seq<string>>)
    ensures published == Publish(c, target, tag, n)
    ensures Sound(c) && Parse(c, target).Some? && n >= 2 ==>
              published.Some? && |published.value| == n &&
              (Distinct(published.value) <==> Rebuildable(c, Parse(c, target).value, tag))
  {
    published := Some([]);
    for k := 0 to n
      invariant published == Publish(c, target, tag, k)
    {
      if published.Some? {
        var full := Build(c, published.value, target, tag);
        published := if full == None then None else Some(published.value + [full.value]);
      }
    }
    if Sound(c) && Parse(c, target).Some? && n >= 2 {
      var _ := RebuildsAreDistinct(c, target, tag, n);
    }
  }
}
