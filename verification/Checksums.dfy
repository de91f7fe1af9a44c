/** The checksum file of OSI images (fatbuildr/registry/formats/osi.py): what is
    read from its text, how a publication merges a new file into it, and what is
    written.  Text is what a file opened in text mode gives, newlines translated. */
module Checksums {
  import opened Wrappers

  datatype Entry = Entry(sum: string, name: string)

  // ---- text ----

  /** str.isspace() */
  predicate Space(c: char) {
    var n := c as nat;
    (9 <= n <= 13) || (28 <= n <= 32) || n == 0x85 || n == 0xA0 || n == 0x1680 || (0x2000 <= n <= 0x200A) ||
    n == 0x2028 || n == 0x2029 || n == 0x202F || n == 0x205F || n == 0x3000
  }

  function StripLeft(s: string): (r: string)
    ensures r == [] || !Space(r[0])
    ensures |r| <= |s| && (|r| == |s| ==> r == s)
    ensures (s == [] || !Space(s[0])) ==> r == s
    ensures s != [] && !Space(s[|s| - 1]) ==> r != [] && r[|r| - 1] == s[|s| - 1]
    ensures forall c :: c in r ==> c in s
  {
    if s == [] || !Space(s[0]) then s else StripLeft(s[1..])
  }

  function StripRight(s: string): (r: string)
    ensures r <= s
    ensures r == [] || !Space(r[|r| - 1])
    ensures (s == [] || !Space(s[|s| - 1])) ==> r == s
  {
    if s == [] || !Space(s[|s| - 1]) then s else StripRight(s[..|s| - 1])
  }

  /** str.strip() */
  function Strip(s: string): (r: string)
    ensures |r| <= |s|
    ensures forall c :: c in r ==> c in s
    ensures r == [] || (!Space(r[0]) && !Space(r[|r| - 1]))
  {
    var right := StripRight(s);
    assert forall c :: c in right ==> c in s;
    StripLeft(right)
  }

  /** A string starts and ends with no white space exactly when strip() keeps it. */
  lemma StripKeeps(s: string)
    ensures Strip(s) == s <==> s == [] || (!Space(s[0]) && !Space(s[|s| - 1]))
  {
  }

  predicate StarAt(s: string, k: nat) {
    k + 1 < |s| && s[k] == ' ' && s[k + 1] == '*'
  }

  predicate NoStar(s: string) {
    forall k: nat :: k + 1 < |s| ==> !StarAt(s, k)
  }

  /** The position of the first " *" from `k` on, the length when there is none. */
  function FirstStar(s: string, k: nat): (n: nat)
    requires k <= |s|
    ensures k <= n <= |s| && (n < |s| ==> StarAt(s, n))
    ensures forall j :: k <= j < n ==> !StarAt(s, j)
    decreases |s| - k
  {
    if k == |s| || StarAt(s, k) then k else FirstStar(s, k + 1)
  }

  /** s.split(' *') */
  function Split(s: string): (parts: seq<string>)
    ensures |parts| >= 1
    decreases |s|
  {
    var n := FirstStar(s, 0);
    if n == |s| then [s] else [s[..n]] + Split(s[n + 2..])
  }

  function Lines(text: string): seq<string>
    decreases |text|
  {
    if text == [] then []
    else
      var n := LineLength(text);
      [text[..n]] + Lines(text[(if n < |text| then n + 1 else n)..])
  }

  function LineLength(text: string): (n: nat)
    ensures n <= |text| && '\n' !in text[..n] && (n < |text| ==> text[n] == '\n')
    ensures text != [] && n == |text| ==> n > 0
  {
    if text == [] || text[0] == '\n' then 0
    else
      var n := LineLength(text[1..]);
      assert text[..n + 1] == [text[0]] + text[1..][..n];
      n + 1
  }

  /** read_checksum_file(): the parts of each line. */
  function Parts(line: string): seq<string> {
    Split(Strip(line))
  }

  /** Every line is a sum and a name; on any other line publish() raises or cuts the
      name. */
  predicate WellFormed(text: string) {
    forall line :: line in Lines(text) ==> |Parts(line)| == 2
  }

  function EntryOf(line: string): Entry
    requires |Parts(line)| == 2
  {
    Entry(Parts(line)[0], Parts(line)[1])
  }

  function EntriesOf(lines: seq<string>): (es: seq<Entry>)
    requires forall line :: line in lines ==> |Parts(line)| == 2
    ensures |es| == |lines|
    ensures forall k :: 0 <= k < |lines| ==> es[k] == EntryOf(lines[k])
  {
    seq(|lines|, k requires 0 <= k < |lines| => assert lines[k] in lines; EntryOf(lines[k]))
  }

  function Read(text: string): seq<Entry>
    requires WellFormed(text)
  {
    EntriesOf(Lines(text))
  }

  function Format(e: Entry): string {
    e.sum + " *" + e.name
  }

  function Write(es: seq<Entry>): string {
    if es == [] then "" else Format(es[0]) + "\n" + Write(es[1..])
  }

  /** An entry that a line can hold. */
  predicate Clean(e: Entry) {
    && NoStar(e.sum) && NoStar(e.name)
    && e.sum != [] && !Space(e.sum[0])
    && (e.name != [] ==> !Space(e.name[|e.name| - 1]))
  }

  lemma SplitOfFormat(e: Entry)
    requires NoStar(e.sum) && NoStar(e.name)
    ensures Split(Format(e)) == [e.sum, e.name]
  {
    var s := Format(e);
    assert forall k :: 0 <= k < |e.sum| ==> s[k] == e.sum[k];
    assert StarAt(s, |e.sum|);
    forall k: nat | k < |e.sum|
      ensures !StarAt(s, k)
    {
      assert k + 1 < |e.sum| ==> !StarAt(e.sum, k);
    }
    assert FirstStar(s, 0) == |e.sum|;
    assert s[..|e.sum|] == e.sum && s[|e.sum| + 2..] == e.name;
    assert FirstStar(e.name, 0) == |e.name|;
  }

  lemma SplitOfTwo(s: string)
    requires |Split(s)| == 2
    ensures NoStar(Split(s)[0]) && NoStar(Split(s)[1])
    ensures s == Split(s)[0] + " *" + Split(s)[1]
  {
    var n := FirstStar(s, 0);
    var rest := s[n + 2..];
    assert FirstStar(rest, 0) == |rest|;
    forall k: nat | k + 1 < n
      ensures !StarAt(s[..n], k)
    {
      assert !StarAt(s, k);
    }
    assert s == s[..n] + [s[n], s[n + 1]] + s[n + 2..];
  }

  lemma NoStarIs(s: string)
    ensures NoStar(s) <==> forall k :: 0 <= k < |s| - 1 ==> !(s[k] == ' ' && s[k + 1] == '*')
  {
    if NoStar(s) {
      forall k | 0 <= k < |s| - 1
        ensures !(s[k] == ' ' && s[k + 1] == '*')
      {
        assert !StarAt(s, k);
      }
    }
  }

  /** A written line is read back if and only if the entry is clean: no " *" in the
      sum or the name, a sum that does not start with white space, a name that does
      not end with it. */
  lemma LineRoundTrip(e: Entry)
    ensures Parts(Format(e)) == [e.sum, e.name] <==> Clean(e)
    ensures Parts(e.sum + " *" + e.name) == [e.sum, e.name] <==>
            && (forall k :: 0 <= k < |e.sum| - 1 ==> !(e.sum[k] == ' ' && e.sum[k + 1] == '*'))
            && (forall k :: 0 <= k < |e.name| - 1 ==> !(e.name[k] == ' ' && e.name[k + 1] == '*'))
            && e.sum != [] && !Space(e.sum[0]) && (e.name != [] ==> !Space(e.name[|e.name| - 1]))
  {
    NoStarIs(e.sum);
    NoStarIs(e.name);
    var s := Format(e);
    StripKeeps(s);
    if Clean(e) {
      SplitOfFormat(e);
    }
    if Parts(s) == [e.sum, e.name] {
      SplitOfTwo(Strip(s));
      assert Strip(s) == s;
      assert s[0] == if e.sum == [] then ' ' else e.sum[0];
      assert e.name != [] ==> s[|s| - 1] == e.name[|e.name| - 1];
    }
  }

  lemma ParsedIsClean(line: string)
    requires |Parts(line)| == 2
    ensures Clean(EntryOf(line))
    ensures '\n' !in line ==> '\n' !in Format(EntryOf(line))
  {
    SplitOfTwo(Strip(line));
    var e := EntryOf(line);
    assert Format(e) == Strip(line);
    LineRoundTrip(e);
    StripKeeps(Strip(line));
  }

  ghost predicate Writable(es: seq<Entry>) {
    forall e :: e in es ==> Clean(e) && '\n' !in Format(e)
  }

  lemma {:induction false} LinesAreLines(text: string)
    ensures forall line :: line in Lines(text) ==> '\n' !in line
    decreases |text|
  {
    if text != [] {
      var n := LineLength(text);
      LinesAreLines(text[(if n < |text| then n + 1 else n)..]);
    }
  }

  lemma ReadIsWritable(text: string)
    requires WellFormed(text)
    ensures Writable(Read(text))
  {
    LinesAreLines(text);
    forall e | e in Read(text)
      ensures Clean(e) && '\n' !in Format(e)
    {
      var k :| 0 <= k < |Lines(text)| && e == Read(text)[k];
      assert Lines(text)[k] in Lines(text);
      ParsedIsClean(Lines(text)[k]);
    }
  }

  function Joined(lines: seq<string>): string {
    if lines == [] then "" else lines[0] + "\n" + Joined(lines[1..])
  }

  lemma JoinedFirst(line: string, lines: seq<string>)
    ensures Joined([line] + lines) == line + "\n" + Joined(lines)
  {
  }

  /** The lines are the text, but for a newline missing at its end. */
  lemma {:induction false} LinesAreTheText(text: string)
    ensures Joined(Lines(text)) == text || Joined(Lines(text)) == text + "\n"
    decreases |text|
  {
    if text != [] {
      var n := LineLength(text);
      var line, rest := text[..n], text[(if n < |text| then n + 1 else n)..];
      JoinedFirst(line, Lines(rest));
      if n < |text| {
        LinesAreTheText(rest);
        LineAndRest(text, n);
      } else {
        LastLine(text);
      }
    }
  }

  lemma LineAndRest(text: string, n: nat)
    requires n < |text| && text[n] == '\n'
    ensures text == text[..n] + "\n" + text[n + 1..]
    ensures text + "\n" == text[..n] + "\n" + (text[n + 1..] + "\n")
  {
  }

  lemma LastLine(text: string)
    ensures text[..|text|] == text && text[|text|..] == [] && Joined(Lines([])) == []
    ensures text + "\n" + [] == text + "\n"
  {
  }

  lemma {:induction false} LinesOfWritten(es: seq<Entry>)
    requires Writable(es)
    ensures |Lines(Write(es))| == |es|
    ensures forall k :: 0 <= k < |es| ==> Lines(Write(es))[k] == Format(es[k])
    decreases |es|
  {
    if es != [] {
      LinesOfWritten(es[1..]);
      FirstLine(Format(es[0]), Write(es[1..]));
    }
  }

  lemma FirstLine(line: string, rest: string)
    requires '\n' !in line
    ensures Lines(line + "\n" + rest) == [line] + Lines(rest)
  {
    var text := line + "\n" + rest;
    LineLengthOf(line, rest);
    assert text[..|line|] == line && text[|line| + 1..] == rest;
  }

  lemma {:induction false} LineLengthOf(line: string, rest: string)
    requires '\n' !in line
    ensures LineLength(line + "\n" + rest) == |line|
    decreases |line|
  {
    if line != [] {
      LineLengthOf(line[1..], rest);
      assert (line + "\n" + rest)[1..] == line[1..] + "\n" + rest;
      assert line[0] in line;
    }
  }

  /** Writing entries read from a file, and reading them again. */
  lemma ReadOfWritten(es: seq<Entry>)
    requires Writable(es)
    ensures WellFormed(Write(es)) && Read(Write(es)) == es
    ensures |Lines(Write(es))| == |es|
    ensures forall k :: 0 <= k < |es| ==> Lines(Write(es))[k] == es[k].sum + " *" + es[k].name
  {
    LinesOfWritten(es);
    forall line | line in Lines(Write(es))
      ensures |Parts(line)| == 2
    {
      var k :| 0 <= k < |es| && line == Lines(Write(es))[k];
      assert es[k] in es;
      LineRoundTrip(es[k]);
    }
    forall k | 0 <= k < |es|
      ensures Read(Write(es))[k] == es[k]
    {
      assert es[k] in es;
      LineRoundTrip(es[k]);
    }
  }

  // ---- the merge ----

  ghost predicate DistinctNames(es: seq<Entry>) {
    forall i, j :: 0 <= i < j < |es| ==> es[i].name != es[j].name
  }

  ghost predicate HasName(es: seq<Entry>, name: string) {
    exists k :: 0 <= k < |es| && es[k].name == name
  }

  /** The sums by name. */
  function AsMap(es: seq<Entry>): map<string, string> {
    if es == [] then map[] else AsMap(es[..|es| - 1])[es[|es| - 1].name := es[|es| - 1].sum]
  }

  lemma {:induction false} AsMapDomain(es: seq<Entry>)
    ensures forall name :: name in AsMap(es) <==> HasName(es, name)
    decreases |es|
  {
    if es != [] {
      AsMapDomain(es[..|es| - 1]);
      forall name
        ensures name in AsMap(es) <==> HasName(es, name)
      {
        if HasName(es[..|es| - 1], name) {
          var k :| 0 <= k < |es| - 1 && es[..|es| - 1][k].name == name;
          assert es[k].name == name;
        }
        if HasName(es, name) && name != es[|es| - 1].name {
          var k :| 0 <= k < |es| && es[k].name == name;
          assert es[..|es| - 1][k].name == name;
        }
      }
    }
  }

  lemma {:induction false} AsMapEntry(es: seq<Entry>, k: nat)
    requires DistinctNames(es) && k < |es|
    ensures es[k].name in AsMap(es) && AsMap(es)[es[k].name] == es[k].sum
    decreases |es|
  {
    if k < |es| - 1 {
      AsMapEntry(es[..|es| - 1], k);
    }
  }

  /** The entry of a name in the new file, or the existing one. */
  function Updated(e: Entry, new_: seq<Entry>): Entry {
    if new_ == [] then e else if new_[0].name == e.name then new_[0] else Updated(e, new_[1..])
  }

  function Additions(new_: seq<Entry>, existing: seq<Entry>): seq<Entry> {
    if new_ == [] then []
    else
      var last := new_[|new_| - 1];
      Additions(new_[..|new_| - 1], existing)
      + if exists k :: 0 <= k < |existing| && existing[k].name == last.name then [] else [last]
  }

  function Updates(existing: seq<Entry>, new_: seq<Entry>): (es: seq<Entry>)
    ensures |es| == |existing|
    ensures forall k :: 0 <= k < |existing| ==> es[k] == Updated(existing[k], new_)
  {
    seq(|existing|, k requires 0 <= k < |existing| => Updated(existing[k], new_))
  }

  /** New names first, then the existing ones with their new sums. */
  function Merged(new_: seq<Entry>, existing: seq<Entry>): seq<Entry> {
    Additions(new_, existing) + Updates(existing, new_)
  }

  /** The loops of publish(). */
  method Merge(newEntries: seq<Entry>, existing: seq<Entry>) returns (merged: seq<Entry>)
    ensures merged == Merged(newEntries, existing)
  {
    merged := [];
    for i := 0 to |newEntries|
      invariant merged == Additions(newEntries[..i], existing)
    {
      assert newEntries[..i + 1][..i] == newEntries[..i];
      if !(exists k :: 0 <= k < |existing| && existing[k].name == newEntries[i].name) {
        merged := merged + [newEntries[i]];
      }
    }
    assert newEntries[..|newEntries|] == newEntries;
    ghost var additions, updates := merged, Updates(existing, newEntries);
    for j := 0 to |existing|
      invariant merged == additions + updates[..j]
    {
      assert updates[..j + 1] == updates[..j] + [Updated(existing[j], newEntries)];
      var found := false;
      ghost var before := merged;
      for i := 0 to |newEntries|
        invariant !found && merged == before
        invariant Updated(existing[j], newEntries) == Updated(existing[j], newEntries[i..])
      {
        assert newEntries[i..][1..] == newEntries[i + 1..];
        if existing[j].name == newEntries[i].name {
          merged := merged + [newEntries[i]];
          found := true;
          break;
        }
      }
      if !found {
        merged := merged + [existing[j]];
      }
    }
  }

  lemma {:induction false} UpdatedIs(e: Entry, new_: seq<Entry>)
    ensures Updated(e, new_).name == e.name
    ensures if HasName(new_, e.name) then Updated(e, new_) in new_ else Updated(e, new_) == e
    decreases |new_|
  {
    if new_ != [] && new_[0].name != e.name {
      UpdatedIs(e, new_[1..]);
      if HasName(new_[1..], e.name) {
        var k :| 0 <= k < |new_| - 1 && new_[1..][k].name == e.name;
        assert new_[k + 1].name == e.name;
      }
      if HasName(new_, e.name) {
        var k :| 0 <= k < |new_| && new_[k].name == e.name;
        assert new_[1..][k - 1].name == e.name;
      }
    }
  }

  lemma {:induction false} AdditionsAre(new_: seq<Entry>, existing: seq<Entry>)
    requires DistinctNames(new_)
    ensures DistinctNames(Additions(new_, existing))
    ensures forall e :: e in Additions(new_, existing) <==> e in new_ && !HasName(existing, e.name)
    decreases |new_|
  {
    if new_ != [] {
      var init, last := new_[..|new_| - 1], new_[|new_| - 1];
      AdditionsAre(init, existing);
      var before := Additions(init, existing);
      assert new_ == init + [last];
      forall k | 0 <= k < |before|
        ensures before[k].name != last.name
      {
        assert before[k] in before && before[k] in init;
      }
    }
  }

  /** `a` comes before `b`. */
  ghost predicate InOrder(es: seq<Entry>, a: Entry, b: Entry) {
    exists i, j :: 0 <= i < j < |es| && es[i] == a && es[j] == b
  }

  lemma {:induction false} AdditionsInOrder(new_: seq<Entry>, existing: seq<Entry>, i: nat, j: nat)
    requires i < j < |Additions(new_, existing)|
    ensures InOrder(new_, Additions(new_, existing)[i], Additions(new_, existing)[j])
    decreases |new_|
  {
    var init, last := new_[..|new_| - 1], new_[|new_| - 1];
    var before := Additions(init, existing);
    if j < |before| {
      AdditionsInOrder(init, existing, i, j);
      var x, y :| 0 <= x < y < |init| && init[x] == before[i] && init[y] == before[j];
      assert new_[x] == before[i] && new_[y] == before[j];
    } else {
      AdditionsAreNew(init, existing);
      assert before[i] in init;
      var x :| 0 <= x < |init| && init[x] == before[i];
      assert new_[x] == before[i] && new_[|new_| - 1] == last;
    }
  }

  lemma {:induction false} AdditionsAreNew(new_: seq<Entry>, existing: seq<Entry>)
    ensures forall e :: e in Additions(new_, existing) ==> e in new_ && !HasName(existing, e.name)
    decreases |new_|
  {
    if new_ != [] {
      AdditionsAreNew(new_[..|new_| - 1], existing);
      assert new_ == new_[..|new_| - 1] + [new_[|new_| - 1]];
    }
  }

  /** The order of the merged lines: first the new names, as the new file has them, then
      the names of the existing file in its order. */
  lemma MergedOrder(new_: seq<Entry>, existing: seq<Entry>) returns (added: nat)
    ensures var merged := Merged(new_, existing);
            && |merged| == added + |existing|
            && (forall k :: 0 <= k < |existing| ==> merged[added + k].name == existing[k].name)
            && (forall k :: 0 <= k < added ==> merged[k] in new_ && !HasName(existing, merged[k].name))
            && (forall i, j :: 0 <= i < j < added ==> InOrder(new_, merged[i], merged[j]))
  {
    var adds, merged := Additions(new_, existing), Merged(new_, existing);
    added := |adds|;
    AdditionsAreNew(new_, existing);
    assert forall k :: 0 <= k < added ==> merged[k] == adds[k] && adds[k] in adds;
    forall k | 0 <= k < |existing|
      ensures merged[added + k].name == existing[k].name
    {
      UpdatedIs(existing[k], new_);
    }
    forall i, j | 0 <= i < j < added
      ensures InOrder(new_, merged[i], merged[j])
    {
      AdditionsInOrder(new_, existing, i, j);
    }
  }

  lemma MergedAreDistinct(new_: seq<Entry>, existing: seq<Entry>)
    requires DistinctNames(new_) && DistinctNames(existing)
    ensures DistinctNames(Merged(new_, existing))
  {
    var adds, ups := Additions(new_, existing), Updates(existing, new_);
    var merged := adds + ups;
    AdditionsAre(new_, existing);
    forall k | 0 <= k < |existing|
      ensures ups[k].name == existing[k].name
    {
      UpdatedIs(existing[k], new_);
    }
    forall i, j | 0 <= i < j < |merged|
      ensures merged[i].name != merged[j].name
    {
      if i < |adds| && j >= |adds| {
        assert adds[i] in adds;
        assert existing[j - |adds|].name == merged[j].name;
      }
    }
  }

  /** When names are distinct in each file, the merged entries have distinct names
      and mean the existing file overridden by the new one. */
  lemma MergeIsOverride(new_: seq<Entry>, existing: seq<Entry>)
    requires DistinctNames(new_) && DistinctNames(existing)
    ensures DistinctNames(Merged(new_, existing))
    ensures AsMap(Merged(new_, existing)) == AsMap(existing) + AsMap(new_)
  {
    var merged, both := Merged(new_, existing), AsMap(existing) + AsMap(new_);
    MergedAreDistinct(new_, existing);
    MergedNames(new_, existing);
    AsMapDomain(merged);
    forall name | name in AsMap(merged)
      ensures name in both && AsMap(merged)[name] == both[name]
    {
      var k :| 0 <= k < |merged| && merged[k].name == name;
      AsMapEntry(merged, k);
      MergedEntry(new_, existing, k);
    }
  }

  lemma MergedEntry(new_: seq<Entry>, existing: seq<Entry>, k: nat)
    requires DistinctNames(new_) && DistinctNames(existing) && k < |Merged(new_, existing)|
    ensures var e := Merged(new_, existing)[k];
            e.name in AsMap(existing) + AsMap(new_) && (AsMap(existing) + AsMap(new_))[e.name] == e.sum
  {
    var adds := Additions(new_, existing);
    var e := Merged(new_, existing)[k];
    AdditionsAre(new_, existing);
    AsMapDomain(new_);
    if k < |adds| {
      assert e in adds;
      var i :| 0 <= i < |new_| && new_[i] == e;
      AsMapEntry(new_, i);
    } else {
      var old_ := existing[k - |adds|];
      UpdatedIs(old_, new_);
      if HasName(new_, old_.name) {
        var i :| 0 <= i < |new_| && new_[i] == e;
        AsMapEntry(new_, i);
      } else {
        AsMapEntry(existing, k - |adds|);
      }
    }
  }

  lemma MergedNames(new_: seq<Entry>, existing: seq<Entry>)
    requires DistinctNames(new_)
    ensures forall name :: name in AsMap(existing) + AsMap(new_) ==> HasName(Merged(new_, existing), name)
  {
    AsMapDomain(new_);
    AsMapDomain(existing);
    forall name | name in AsMap(existing) + AsMap(new_)
      ensures HasName(Merged(new_, existing), name)
    {
      if HasName(existing, name) {
        KeepsExistingName(new_, existing, name);
      } else {
        HasNewName(new_, existing, name);
      }
    }
  }

  lemma KeepsExistingName(new_: seq<Entry>, existing: seq<Entry>, name: string)
    requires HasName(existing, name)
    ensures HasName(Merged(new_, existing), name)
  {
    var k :| 0 <= k < |existing| && existing[k].name == name;
    UpdatedIs(existing[k], new_);
    assert Merged(new_, existing)[|Additions(new_, existing)| + k].name == name;
  }

  lemma HasNewName(new_: seq<Entry>, existing: seq<Entry>, name: string)
    requires DistinctNames(new_) && HasName(new_, name) && !HasName(existing, name)
    ensures HasName(Merged(new_, existing), name)
  {
    var adds := Additions(new_, existing);
    AdditionsAre(new_, existing);
    var k :| 0 <= k < |new_| && new_[k].name == name;
    assert new_[k] in adds;
    var i :| 0 <= i < |adds| && adds[i] == new_[k];
    assert Merged(new_, existing)[i].name == name;
  }

  lemma {:induction false} MergedMembers(new_: seq<Entry>, existing: seq<Entry>)
    requires DistinctNames(new_)
    ensures forall e :: e in Merged(new_, existing) ==> e in new_ || e in existing
  {
    AdditionsAre(new_, existing);
    forall e | e in Updates(existing, new_)
      ensures e in new_ || e in existing
    {
      var k :| 0 <= k < |existing| && e == Updated(existing[k], new_);
      UpdatedIs(existing[k], new_);
    }
  }

  // ---- publications ----

  /** A checksum file with one line for each name. */
  ghost predicate GoodFile(text: string) {
    WellFormed(text) && DistinctNames(Read(text))
  }

  /** The registry file after a publication: a copy when there was none. */
  function Published(file: Option<string>, new_: string): string
    requires file.Some? ==> WellFormed(new_) && WellFormed(file.value)
  {
    if file.None? then new_ else Write(Merged(Read(new_), Read(file.value)))
  }

  function FileMap(file: Option<string>): map<string, string>
    requires file.Some? ==> WellFormed(file.value)
  {
    if file.None? then map[] else AsMap(Read(file.value))
  }

  /** One publication: the written file, read back, has distinct names, all the names
      of both files, the new sum where there is one and the old sum elsewhere. */
  lemma PublishOverrides(file: Option<string>, new_: string)
    requires GoodFile(new_) && (file.Some? ==> GoodFile(file.value))
    ensures GoodFile(Published(file, new_))
    ensures FileMap(Some(Published(file, new_))) == FileMap(file) + AsMap(Read(new_))
  {
    if file.Some? {
      var merged := Merged(Read(new_), Read(file.value));
      MergeIsOverride(Read(new_), Read(file.value));
      MergedMembers(Read(new_), Read(file.value));
      ReadIsWritable(new_);
      ReadIsWritable(file.value);
      ReadOfWritten(merged);
    } else {
      assert map[] + AsMap(Read(new_)) == AsMap(Read(new_));
    }
  }

  ghost predicate AllGood(news: seq<string>) {
    forall n :: n in news ==> GoodFile(n)
  }

  /** What a sequence of publications means: the last sum published of each name. */
  ghost function Overrides(m: map<string, string>, news: seq<string>): map<string, string>
    requires AllGood(news)
    decreases news
  {
    if news == [] then m
    else
      assert GoodFile(news[0]);
      Overrides(m + AsMap(Read(news[0])), news[1..])
  }

  /** The registry file of a distribution and derivative, absent at first. */
  class OsiChecksums {
    var file: Option<string>

    constructor ()
      ensures file == None
    {
      file := None;
    }

    /** The checksum part of publish(). */
    method Publish(newFile: string)
      requires file.Some? ==> WellFormed(newFile) && WellFormed(file.value)
      modifies this
      ensures file == Some(Published(old(file), newFile))
    {
      if file == None {
        file := Some(newFile);
      } else {
        var merged := Merge(Read(newFile), Read(file.value));
        file := Some(Write(merged));
      }
    }

    /** Any sequence of publications: the file always means what they override. */
    method PublishAll(news: seq<string>)
      requires AllGood(news) && (file.Some? ==> GoodFile(file.value))
      modifies this
      ensures file.Some? ==> GoodFile(file.value)
      ensures FileMap(file) == Overrides(FileMap(old(file)), news)
    {
      for k := 0 to |news|
        invariant file.Some? ==> GoodFile(file.value)
        invariant AllGood(news[k..])
        invariant Overrides(FileMap(file), news[k..]) == Overrides(FileMap(old(file)), news)
      {
        assert news[k..][1..] == news[k + 1..] && news[k] in news;
        PublishOverrides(file, news[k]);
        Publish(news[k]);
      }
    }
  }
}
