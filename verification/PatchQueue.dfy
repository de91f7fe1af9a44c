/** Export of a Git history as a patch queue and import of a patch queue as a Git
    history (fatbuildr/git.py).  Deb822 metadata is a map from canonical field
    names to values, a diff is an opaque text, empty when there is none. */
module PatchQueue {
  import opened Wrappers
  import opened Text
  import opened PatchNames

  type Meta = map<string, string>

  datatype Commit = Commit(title: string, meta: Meta, author: string, email: string, diff: string)

  datatype PatchFile = PatchFile(meta: Meta, diff: string)

  /** A patches subdirectory: the files by name. */
  type Subdir = map<string, PatchFile>

  predicate IsGeneric(meta: Meta) {
    "Generic" in meta && meta["Generic"] == "yes"
  }

  // ---- the author field ----

  function AuthorField(author: string, email: string): string {
    author + " <" + email + ">"
  }

  /** The last '>' before position `q`. */
  function LastClose(l: string, q: nat): (r: Option<nat>)
    requires q <= |l|
    ensures r.Some? ==> r.value < q && l[r.value] == '>'
    ensures forall k :: (if r.Some? then r.value + 1 else 0) <= k < q ==> l[k] != '>'
  {
    if q == 0 then None else if l[q - 1] == '>' then Some(q - 1) else LastClose(l, q - 1)
  }

  predicate OpensAt(l: string, k: nat) {
    k + 1 < |l| && l[k] == ' ' && l[k + 1] == '<'
  }

  /** The last " <" before position `p`, not at the start. */
  function LastOpen(l: string, p: nat): (r: Option<nat>)
    ensures r.Some? ==> 1 <= r.value < p && OpensAt(l, r.value)
    ensures forall k :: (if r.Some? then r.value + 1 else 1) <= k < p ==> !OpensAt(l, k)
  {
    if p <= 1 then None else if OpensAt(l, p - 1) then Some(p - 1) else LastOpen(l, p - 1)
  }

  /** re.match(r'(?P<author>.+) <(?P<email>.+)>', s): both groups are greedy, so the
      author ends at the last " <" that leaves a character before the last '>'. */
  function ParseAuthor(s: string): Option<(string, string)> {
    ParseLine(Line(s))
  }

  function ParseLine(l: string): Option<(string, string)> {
    match LastClose(l, |l|)
    case None => None
    case Some(q) =>
      match LastOpen(l, if q < 2 then 0 else q - 2)
      case None => None
      case Some(p) => Some((l[..p], l[p + 2..q]))
  }

  /** The field of this author can be read back. */
  predicate AuthorReadable(author: string, email: string) {
    && author != [] && '\n' !in author
    && email != [] && '\n' !in email
    && NoOpening(email)
  }

  predicate NoOpening(email: string) {
    forall k :: 0 <= k < |email| - 2 ==> !OpensAt(email, k)
  }

  lemma FieldIsOneLine(author: string, email: string)
    requires '\n' !in author && '\n' !in email
    ensures ParseAuthor(AuthorField(author, email)) == ParseLine(AuthorField(author, email))
  {
    LineOfClean(AuthorField(author, email));
  }

  lemma FieldParts(author: string, email: string)
    ensures var s := AuthorField(author, email);
            && |s| == |author| + |email| + 3 && LastClose(s, |s|) == Some(|s| - 1)
            && s[..|author|] == author && s[|author| + 2..|s| - 1] == email
  {
  }

  lemma FieldOpens(author: string, email: string)
    ensures var s, a := AuthorField(author, email), |author|;
            && |s| == a + |email| + 3 && OpensAt(s, a) && !OpensAt(s, a + 1)
            && forall k :: a + 2 <= k < |s| - 2 ==> (OpensAt(s, k) <==> OpensAt(email, k - a - 2))
  {
  }

  lemma LastOpenIs(l: string, p: nat, a: nat)
    ensures LastOpen(l, p) == Some(a)
            <==> 1 <= a < p && OpensAt(l, a) && forall k :: a < k < p ==> !OpensAt(l, k)
  {
  }

  lemma ParsePieces(s: string)
    requires |s| >= 3 && LastClose(s, |s|) == Some(|s| - 1)
    ensures ParseLine(s) == match LastOpen(s, |s| - 3)
                              case None => None
                              case Some(p) => Some((s[..p], s[p + 2..|s| - 1]))
  {
  }

  lemma SplitPieces(s: string, p: Option<nat>, author: string, email: string)
    requires |s| == |author| + |email| + 3 && (p.Some? ==> p.value < |s| - 3)
    requires s[..|author|] == author && s[|author| + 2..|s| - 1] == email
    ensures (match p
             case None => None
             case Some(k) => Some((s[..k], s[k + 2..|s| - 1]))) == Some((author, email))
            <==> p == Some(|author|)
  {
    if p.Some? && s[..p.value] == author {
      assert |s[..p.value]| == p.value;
    }
  }

  lemma LineIsParsed(s: string, author: string, email: string)
    requires |s| == |author| + |email| + 3 && LastClose(s, |s|) == Some(|s| - 1)
    requires s[..|author|] == author && s[|author| + 2..|s| - 1] == email
    ensures ParseLine(s) == Some((author, email)) <==> LastOpen(s, |s| - 3) == Some(|author|)
  {
    ParsePieces(s);
    SplitPieces(s, LastOpen(s, |s| - 3), author, email);
  }

  /** Before the last two characters, " <" opens the address only at its front if and
      only if there is none inside the address. */
  lemma OpensInEmail(author: string, email: string)
    ensures var s := AuthorField(author, email);
            (forall k :: |author| < k < |s| - 3 ==> !OpensAt(s, k)) <==> NoOpening(email)
  {
    FieldOpens(author, email);
    var s, a := AuthorField(author, email), |author|;
    if NoOpening(email) {
      forall k | a < k < |s| - 3
        ensures !OpensAt(s, k)
      {
        if k > a + 1 {
          assert !OpensAt(email, k - a - 2);
        }
      }
    } else {
      var k :| 0 <= k < |email| - 2 && OpensAt(email, k);
      assert OpensAt(s, a + 2 + k);
    }
  }

  lemma OnlyCleanIsRead(author: string, email: string)
    requires ParseAuthor(AuthorField(author, email)) == Some((author, email))
    ensures '\n' !in author && '\n' !in email
  {
    var l := Line(AuthorField(author, email));
    assert forall c :: c in author ==> c in l;
    assert forall c :: c in email ==> c in l;
  }

  lemma FieldRoundTrip(author: string, email: string)
    ensures ParseLine(AuthorField(author, email)) == Some((author, email)) <==> author != [] && email != [] && NoOpening(email)
  {
    var s := AuthorField(author, email);
    FieldParts(author, email);
    FieldOpens(author, email);
    LineIsParsed(s, author, email);
    OpensInEmail(author, email);
    LastOpenIs(s, |s| - 3, |author|);
  }

  /** An exported author is read back if and only if it is readable: neither part
      empty or with a newline, no " <" inside the address. */
  lemma AuthorRoundTrip(author: string, email: string)
    ensures ParseAuthor(AuthorField(author, email)) == Some((author, email)) <==> AuthorReadable(author, email)
  {
    if ParseAuthor(AuthorField(author, email)) == Some((author, email)) {
      OnlyCleanIsRead(author, email);
    }
    if '\n' !in author && '\n' !in email {
      FieldIsOneLine(author, email);
      FieldRoundTrip(author, email);
    }
  }

  /** The first line of the field is an author, " <", an address and the last '>' of the
      line; the address has no " <" that leaves it a character. */
  ghost predicate FieldSays(field: string, author: string, email: string) {
    && author != [] && email != []
    && (forall k :: 0 <= k < |email| - 2 ==> !(email[k] == ' ' && email[k + 1] == '<'))
    && exists rest, tail :: FieldIs(field, author, email, rest, tail)
  }

  ghost predicate FieldIs(field: string, author: string, email: string, rest: string, tail: string) {
    && field == author + " <" + email + ">" + rest + tail
    && '\n' !in author && '\n' !in email && '\n' !in rest && '>' !in rest
    && (tail == [] || tail[0] == '\n')
  }

  lemma ParsedLine(l: string) returns (author: string, email: string, rest: string)
    requires ParseLine(l).Some?
    ensures ParseLine(l) == Some((author, email)) && l == author + " <" + email + ">" + rest && '>' !in rest
    ensures author != [] && email != []
    ensures forall k :: 0 <= k < |email| - 2 ==> !(email[k] == ' ' && email[k + 1] == '<')
    ensures forall c :: c in author || c in email || c in rest ==> c in l
  {
    var q := LastClose(l, |l|).value;
    var p := LastOpen(l, if q < 2 then 0 else q - 2).value;
    author, email, rest := l[..p], l[p + 2..q], l[q + 1..];
    LinePieces(l, p, q);
    forall k | 0 <= k < |email| - 2
      ensures !(email[k] == ' ' && email[k + 1] == '<')
    {
      assert !OpensAt(l, p + 2 + k);
    }
  }

  lemma ParsedSays(s: string, author: string, email: string)
    requires ParseAuthor(s) == Some((author, email))
    ensures FieldSays(s, author, email)
  {
    var l := Line(s);
    var a, e, rest := ParsedLine(l);
    var tail := s[|l|..];
    assert s == l + tail;
    assert FieldIs(s, author, email, rest, tail);
  }

  lemma LinePieces(l: string, p: nat, q: nat)
    requires p + 2 < q < |l| && OpensAt(l, p) && l[q] == '>'
    ensures l == l[..p] + " <" + l[p + 2..q] + ">" + l[q + 1..]
    ensures forall c :: c in l[..p] || c in l[p + 2..q] || c in l[q + 1..] ==> c in l
  {
  }

  lemma SaidIsParsed(s: string, author: string, email: string)
    requires FieldSays(s, author, email)
    ensures ParseAuthor(s) == Some((author, email))
  {
    var rest, tail :| FieldIs(s, author, email, rest, tail);
    var l := author + " <" + email + ">" + rest;
    LineIs(s, l, tail);
    SaidLine(l, author, email, rest);
  }

  lemma SaidLine(l: string, author: string, email: string, rest: string)
    requires l == author + " <" + email + ">" + rest && '>' !in rest && author != [] && email != []
    requires forall k :: 0 <= k < |email| - 2 ==> !(email[k] == ' ' && email[k + 1] == '<')
    ensures ParseLine(l) == Some((author, email))
  {
    var p, q := |author|, |author| + 2 + |email|;
    SaidParts(l, author, email, rest);
    assert LastClose(l, |l|) == Some(q);
    forall k | p < k < q - 2
      ensures !OpensAt(l, k)
    {
      if k > p + 1 {
        assert l[k] == email[k - p - 2] && l[k + 1] == email[k - p - 1];
      }
    }
    LastOpenIs(l, q - 2, p);
  }

  lemma SaidParts(l: string, author: string, email: string, rest: string)
    requires l == author + " <" + email + ">" + rest && '>' !in rest
    ensures var p, q := |author|, |author| + 2 + |email|;
            && |l| == q + 1 + |rest| && l[p] == ' ' && l[p + 1] == '<' && l[q] == '>'
            && l[..p] == author && l[p + 2..q] == email
            && (forall k :: p + 2 <= k < q ==> l[k] == email[k - p - 2])
            && (forall k :: q < k < |l| ==> l[k] != '>')
  {
    var q := |author| + 2 + |email|;
    assert forall k :: q < k < |l| ==> l[k] == rest[k - q - 1] && l[k] in rest;
  }

  /** What an author field means, and when it raises. */
  lemma ParseAuthorIs(s: string, author: string, email: string)
    ensures ParseAuthor(s) == Some((author, email)) <==> FieldSays(s, author, email)
    ensures ParseAuthor(s) == None <==> forall a, e :: !FieldSays(s, a, e)
  {
    if ParseAuthor(s) == Some((author, email)) {
      ParsedSays(s, author, email);
    }
    if FieldSays(s, author, email) {
      SaidIsParsed(s, author, email);
    }
    if ParseAuthor(s).Some? {
      ParsedSays(s, ParseAuthor(s).value.0, ParseAuthor(s).value.1);
    } else {
      forall a, e
        ensures !FieldSays(s, a, e)
      {
        if FieldSays(s, a, e) {
          SaidIsParsed(s, a, e);
        }
      }
    }
  }

  // ---- one patch file ----

  /** What _export_commit() writes. */
  function ExportFile(c: Commit): PatchFile {
    PatchFile(c.meta["Author" := AuthorField(c.author, c.email)] - {"Generic"}, c.diff)
  }

  /** _apply_patch(): the commit of a patch file, None when it raises.  A From field
      wins over an Author field. */
  function ApplyPatch(generic: bool, name: string, file: PatchFile): Option<Commit> {
    var key := if "From" in file.meta then Some("From") else if "Author" in file.meta then Some("Author") else None;
    var who := match key
               case None => Some(("Unknown Author", "unknown@email.com"))
               case Some(k) => ParseAuthor(file.meta[k]);
    var kept := if key.Some? then file.meta - {key.value} else file.meta;
    var meta := if generic then kept["Generic" := "yes"] else kept;
    if who.None? || Title(name).None? then None
    else Some(Commit(Title(name).value, meta, who.value.0, who.value.1, file.diff))
  }

  /** Which field of a patch names the author: the last of Author and From. */
  ghost predicate AuthorComesFrom(meta: Meta, key: Option<string>) {
    match key
    case None => "From" !in meta && "Author" !in meta
    case Some(k) => k in meta && (k == "From" || (k == "Author" && "From" !in meta))
  }

  /** The commit of a patch file, field by field. */
  ghost predicate Imported(generic: bool, name: string, file: PatchFile, c: Commit) {
    && (exists index :: '-' !in index && name == index + "-" + c.title)
    && c.diff == file.diff
    && exists key :: AuthorComesFrom(file.meta, key) && ImportedMeta(generic, file.meta, key, c)
  }

  ghost predicate ImportedMeta(generic: bool, meta: Meta, key: Option<string>, c: Commit) {
    && (if key.Some? then key.value in meta && FieldSays(meta[key.value], c.author, c.email)
        else c.author == "Unknown Author" && c.email == "unknown@email.com")
    && KeptFields(generic, meta, key, c.meta)
  }

  /** The field of the author is gone, a patch of the generic directory is marked so, and
      the other fields are kept. */
  ghost predicate KeptFields(generic: bool, meta: Meta, key: Option<string>, kept: Meta) {
    && (forall f :: f in kept <==> (f in meta && key != Some(f)) || (generic && f == "Generic"))
    && (forall f :: f in kept ==>
          if generic && f == "Generic" then kept[f] == "yes" else f in meta && kept[f] == meta[f])
  }

  lemma KeptAre(generic: bool, meta: Meta, key: string)
    ensures KeptFields(generic, meta, Some(key), if generic then (meta - {key})["Generic" := "yes"] else meta - {key})
  {
  }

  /** A patch file that raises: no dash in its name, or an author field that does not
      match. */
  ghost predicate Refused(name: string, file: PatchFile) {
    || '-' !in name
    || exists key: string ::
         && AuthorComesFrom(file.meta, Some(key))
         && forall author, email :: !FieldSays(file.meta[key], author, email)
  }

  lemma TitleIs(name: string, title: string)
    ensures Title(name) == Some(title) <==> exists index :: '-' !in index && name == index + "-" + title
    ensures Title(name) == None <==> '-' !in name
  {
    var n := IndexLength(name);
    if n < |name| {
      assert name == name[..n] + "-" + name[n + 1..];
    }
    if index :| '-' !in index && name == index + "-" + title {
      IndexEndsAt(name, index, title);
    }
  }

  lemma IndexEndsAt(name: string, index: string, title: string)
    requires '-' !in index && name == index + "-" + title
    ensures IndexLength(name) == |index| && name[|index| + 1..] == title
  {
    assert name[|index|] == '-';
    assert forall k :: 0 <= k < |index| ==> name[k] == index[k] && name[k] in index;
  }

  lemma AppliedField(generic: bool, name: string, file: PatchFile, c: Commit, key: string)
    requires ApplyPatch(generic, name, file) == Some(c) && key == if "From" in file.meta then "From" else "Author"
    requires key in file.meta
    ensures ImportedMeta(generic, file.meta, Some(key), c)
  {
    KeptAre(generic, file.meta, key);
    ParseAuthorIs(file.meta[key], c.author, c.email);
  }

  lemma AppliedUnknown(generic: bool, name: string, file: PatchFile, c: Commit)
    requires ApplyPatch(generic, name, file) == Some(c) && "From" !in file.meta && "Author" !in file.meta
    ensures ImportedMeta(generic, file.meta, None, c)
  {
  }

  lemma AppliedAuthor(generic: bool, name: string, file: PatchFile, c: Commit)
    requires ApplyPatch(generic, name, file) == Some(c)
    ensures exists key :: AuthorComesFrom(file.meta, key) && ImportedMeta(generic, file.meta, key, c)
  {
    if "From" in file.meta || "Author" in file.meta {
      var key := if "From" in file.meta then "From" else "Author";
      AppliedField(generic, name, file, c, key);
      assert AuthorComesFrom(file.meta, Some(key));
    } else {
      AppliedUnknown(generic, name, file, c);
      assert AuthorComesFrom(file.meta, None);
    }
  }

  lemma AppliedIsImported(generic: bool, name: string, file: PatchFile)
    requires ApplyPatch(generic, name, file).Some?
    ensures Imported(generic, name, file, ApplyPatch(generic, name, file).value)
  {
    var c := ApplyPatch(generic, name, file).value;
    TitleIs(name, c.title);
    AppliedAuthor(generic, name, file, c);
  }

  lemma AuthorOf(meta: Meta, key: string)
    requires AuthorComesFrom(meta, Some(key))
    ensures key == if "From" in meta then "From" else "Author"
  {
  }

  lemma NoneIsRefused(generic: bool, name: string, file: PatchFile)
    ensures ApplyPatch(generic, name, file) == None <==> Refused(name, file)
  {
    TitleIs(name, "");
    var key := if "From" in file.meta then "From" else "Author";
    if key in file.meta {
      ParseAuthorIs(file.meta[key], "", "");
      assert AuthorComesFrom(file.meta, Some(key));
    }
    if k: string :|
        AuthorComesFrom(file.meta, Some(k)) && forall author, email :: !FieldSays(file.meta[k], author, email) {
      AuthorOf(file.meta, k);
    }
  }

  /** A commit as a patch queue keeps it. */
  function Normal(c: Commit): Commit {
    c.(meta := (c.meta - {"Author", "Generic"}) + if IsGeneric(c.meta) then map["Generic" := "yes"] else map[])
  }

  predicate Importable(c: Commit) {
    "From" !in c.meta && AuthorReadable(c.author, c.email)
  }

  lemma ExportedMeta(c: Commit)
    ensures var meta := ExportFile(c).meta;
            && meta["Author"] == AuthorField(c.author, c.email) && "Generic" !in meta
            && ("From" in meta <==> "From" in c.meta)
            && meta - {"Author"} == c.meta - {"Author", "Generic"}
  {
  }

  lemma NamedFileRoundTrip(c: Commit, name: string)
    requires Title(name) == Some(c.title)
    ensures ApplyPatch(IsGeneric(c.meta), name, ExportFile(c)) == Some(Normal(c)) <==> Importable(c)
  {
    ExportedMeta(c);
    AuthorRoundTrip(c.author, c.email);
    if "From" !in c.meta {
      AppliedMeta(c, name);
    } else {
      assert "From" in Normal(c).meta;
    }
  }

  lemma AppliedMeta(c: Commit, name: string)
    requires Title(name) == Some(c.title) && "From" !in c.meta
    ensures var result := ApplyPatch(IsGeneric(c.meta), name, ExportFile(c));
            var who := ParseAuthor(AuthorField(c.author, c.email));
            result == match who
                      case None => None
                      case Some((author, email)) => Some(Normal(c).(author := author, email := email))
  {
    ExportedMeta(c);
    var kept := ExportFile(c).meta - {"Author"};
    assert kept["Generic" := "yes"] == kept + map["Generic" := "yes"] && kept + map[] == kept;
  }

  /** Exporting a commit under any index and importing the file gives the commit
      back, with its title, author, Generic flag and diff, if and only if its
      author is readable and it has no From field. */
  lemma FileRoundTrip(c: Commit, index: nat)
    ensures ApplyPatch(IsGeneric(c.meta), FileName(index, c.title), ExportFile(c)) == Some(Normal(c)) <==> Importable(c)
  {
    NameParts(index, c.title);
    NamedFileRoundTrip(c, FileName(index, c.title));
  }

  lemma NormalKeeps(c: Commit)
    ensures IsGeneric(Normal(c).meta) == IsGeneric(c.meta)
    ensures ExportFile(Normal(c)) == ExportFile(c)
    ensures Normal(c).title == c.title && Normal(c).diff == c.diff
  {
    assert ExportFile(Normal(c)).meta == ExportFile(c).meta;
  }

  // ---- numbering ----

  /** The commits of one class of a newest-first history, oldest first. */
  function OldestFirst(history: seq<Commit>, generic: bool): seq<Commit> {
    if history == [] then []
    else OldestFirst(history[1..], generic) + if IsGeneric(history[0].meta) == generic then [history[0]] else []
  }

  /** The files of commits numbered from 1 in the order given, those after the
      index `from`; a commit without a diff keeps its number and has no file. */
  function NumberedAfter(cs: seq<Commit>, from: nat): Subdir {
    if |cs| <= from then map[]
    else
      var n := |cs|;
      var before := NumberedAfter(cs[..n - 1], from);
      if cs[n - 1].diff == "" then before else before[FileName(n, cs[n - 1].title) := ExportFile(cs[n - 1])]
  }

  function Numbered(cs: seq<Commit>): Subdir {
    NumberedAfter(cs, 0)
  }

  /** The file of the commit number `i`, if any, in front of the later ones. */
  lemma {:induction false} NumberedStep(cs: seq<Commit>, from: nat)
    requires 1 <= from <= |cs|
    ensures var c := cs[from - 1];
            NumberedAfter(cs, from - 1) ==
            if c.diff == "" then NumberedAfter(cs, from)
            else NumberedAfter(cs, from)[FileName(from, c.title) := ExportFile(c)]
    decreases |cs|
  {
    var n := |cs|;
    if from < n {
      NumberedStep(cs[..n - 1], from);
      NamesDiffer(from, cs[from - 1].title, n, cs[n - 1].title);
    } else {
      assert NumberedAfter(cs[..n - 1], from - 1) == map[];
    }
  }

  /** The file of an exported commit, field by field. */
  ghost predicate Exported(c: Commit, file: PatchFile) {
    && file.diff == c.diff && "Generic" !in file.meta
    && "Author" in file.meta && file.meta["Author"] == c.author + " <" + c.email + ">"
    && forall f :: f != "Author" && f != "Generic" ==>
         (f in file.meta <==> f in c.meta) && (f in c.meta ==> file.meta[f] == c.meta[f])
  }

  /** Each commit with a diff has the file of its number and title, and there is no
      other file. */
  ghost predicate FilesOf(dir: Subdir, cs: seq<Commit>) {
    && (forall k :: 0 <= k < |cs| && cs[k].diff != "" ==>
          FileName(k + 1, cs[k].title) in dir && Exported(cs[k], dir[FileName(k + 1, cs[k].title)]))
    && forall name :: name in dir ==> exists k :: 0 <= k < |cs| && cs[k].diff != "" && name == FileName(k + 1, cs[k].title)
  }

  lemma ExportIsExported(c: Commit)
    ensures Exported(c, ExportFile(c))
  {
  }

  lemma {:induction false} NumberedFile(cs: seq<Commit>, k: nat)
    requires k < |cs| && cs[k].diff != ""
    ensures FileName(k + 1, cs[k].title) in Numbered(cs)
    ensures Numbered(cs)[FileName(k + 1, cs[k].title)] == ExportFile(cs[k])
    decreases |cs|
  {
    var n := |cs|;
    if k < n - 1 {
      NumberedFile(cs[..n - 1], k);
      NamesDiffer(k + 1, cs[k].title, n, cs[n - 1].title);
    }
  }

  lemma {:induction false} NumberedName(cs: seq<Commit>, name: string) returns (k: nat)
    requires name in Numbered(cs)
    ensures k < |cs| && cs[k].diff != "" && name == FileName(k + 1, cs[k].title)
    decreases |cs|
  {
    var n := |cs|;
    if cs[n - 1].diff != "" && name == FileName(n, cs[n - 1].title) {
      k := n - 1;
    } else {
      k := NumberedName(cs[..n - 1], name);
    }
  }

  lemma NumberedFiles(cs: seq<Commit>)
    ensures FilesOf(Numbered(cs), cs)
  {
    forall k | 0 <= k < |cs| && cs[k].diff != ""
      ensures FileName(k + 1, cs[k].title) in Numbered(cs)
      ensures Exported(cs[k], Numbered(cs)[FileName(k + 1, cs[k].title)])
    {
      NumberedFile(cs, k);
      ExportIsExported(cs[k]);
    }
    forall name | name in Numbered(cs)
      ensures exists k :: 0 <= k < |cs| && cs[k].diff != "" && name == FileName(k + 1, cs[k].title)
    {
      var k := NumberedName(cs, name);
    }
  }

  /** The names of these files, in the order of the commits. */
  function Names(cs: seq<Commit>): seq<string> {
    if cs == [] then []
    else
      var n := |cs|;
      Names(cs[..n - 1]) + if cs[n - 1].diff == "" then [] else [FileName(n, cs[n - 1].title)]
  }

  lemma {:induction false} NamesOfNumbered(cs: seq<Commit>)
    ensures Elements(Names(cs)) == Numbered(cs).Keys
    ensures IndexedUpTo(Names(cs), |cs|)
    decreases |cs|
  {
    if cs != [] {
      var n := |cs|;
      NamesOfNumbered(cs[..n - 1]);
      forall name | name in Names(cs)
        ensures exists i: nat, t :: i <= |cs| && name == FileName(i, t)
      {
        if name !in Names(cs[..n - 1]) {
          assert name == FileName(n, cs[n - 1].title);
        }
      }
    }
  }

  lemma {:induction false} NamesAreSorted(cs: seq<Commit>)
    requires |cs| <= 9999
    ensures Sorted(Names(cs))
    decreases |cs|
  {
    if cs != [] {
      var n := |cs|;
      var before := Names(cs[..n - 1]);
      NamesAreSorted(cs[..n - 1]);
      NamesOfNumbered(cs[..n - 1]);
      if cs[n - 1].diff != "" {
        LaterNameComesLast(before, n - 1, n, cs[n - 1].title);
      }
    }
  }

  /** Some order in which iterdir() may list a subdirectory. */
  ghost predicate Listing(order: seq<string>, dir: Subdir) {
    Distinct(order) && Elements(order) == dir.Keys
  }

  /** PatchesSubdir.patches: whatever the order of the listing, the files come in
      the order of the commits, for up to 9999 commits. */
  lemma PatchesInOrder(cs: seq<Commit>, order: seq<string>)
    requires |cs| <= 9999 && Listing(order, Numbered(cs))
    ensures Sort(order) == Names(cs)
  {
    NamesAreSorted(cs);
    NamesOfNumbered(cs);
    SortIs(order, Names(cs));
  }

  lemma SortIs(order: seq<string>, names: seq<string>)
    requires Distinct(order) && Sorted(names) && Elements(order) == Elements(names)
    ensures Sort(order) == names
  {
    SortIsSorted(order);
    SortedIsUnique(Sort(order), names);
  }

  /** All these names are file names of indices up to `n`. */
  ghost predicate IndexedUpTo(names: seq<string>, n: nat) {
    forall name :: name in names ==> exists i: nat, t :: i <= n && name == FileName(i, t)
  }

  lemma LaterNameComesLast(names: seq<string>, n: nat, i: nat, title: string)
    requires Sorted(names) && IndexedUpTo(names, n) && n < i <= 9999
    ensures Sorted(names + [FileName(i, title)]) && IndexedUpTo(names + [FileName(i, title)], i)
    ensures Elements(names + [FileName(i, title)]) == Elements(names) + {FileName(i, title)}
  {
    forall k | 0 <= k < |names|
      ensures Less(names[k], FileName(i, title))
    {
      assert names[k] in names;
      var j: nat, t :| j <= n && names[k] == FileName(j, t);
      NamesAreOrdered(j, t, i, title);
    }
    forall name | name in names + [FileName(i, title)]
      ensures exists j: nat, t :: j <= i && name == FileName(j, t)
    {
      if name in names {
        var j: nat, t :| j <= n && name == FileName(j, t);
        assert j <= i && name == FileName(j, t);
      } else {
        assert i <= i && name == FileName(i, title);
      }
    }
  }

  // ---- the patches of a build ----

  /** A patch that a build adds to the version subdirectory. */
  datatype Generated = Generated(title: string, file: PatchFile)

  function AddName(names: seq<string>, i: nat, g: Option<Generated>): seq<string> {
    if g.None? then names else names + [FileName(i, g.value.title)]
  }

  function AddFile(dir: Subdir, i: nat, g: Option<Generated>): Subdir {
    if g.None? then dir else dir[FileName(i, g.value.title) := g.value.file]
  }

  lemma AddedNameComesLast(names: seq<string>, dir: Subdir, n: nat, i: nat, g: Option<Generated>)
    requires Sorted(names) && IndexedUpTo(names, n) && n < i <= 9999 && Elements(names) == dir.Keys
    ensures Sorted(AddName(names, i, g)) && IndexedUpTo(AddName(names, i, g), i)
    ensures Elements(AddName(names, i, g)) == AddFile(dir, i, g).Keys
    ensures g.Some? ==> FileName(i, g.value.title) !in names
  {
    if g.Some? {
      LaterNameComesLast(names, n, i, g.value.title);
      NewNameDiffers(names, n, i, g.value.title);
    } else {
      IndexedFurther(names, n, i);
    }
  }

  lemma NewNameDiffers(names: seq<string>, n: nat, i: nat, title: string)
    requires IndexedUpTo(names, n) && n < i
    ensures FileName(i, title) !in names
  {
    forall name | name in names
      ensures name != FileName(i, title)
    {
      var j: nat, t :| j <= n && name == FileName(j, t);
      NamesDiffer(j, t, i, title);
    }
  }

  lemma IndexedFurther(names: seq<string>, n: nat, i: nat)
    requires IndexedUpTo(names, n) && n <= i
    ensures IndexedUpTo(names, i)
  {
    forall name | name in names
      ensures exists j: nat, t :: j <= i && name == FileName(j, t)
    {
      var j: nat, t :| j <= n && name == FileName(j, t);
      assert j <= i && name == FileName(j, t);
    }
  }

  /** str.split(' ') */
  function Words(s: string): (words: seq<string>)
    ensures words != []
  {
    if s == [] then [[]]
    else if s[0] == ' ' then [[]] + Words(s[1..])
    else var rest := Words(s[1..]); [[s[0]] + rest[0]] + rest[1..]
  }

  /** `w` stands in `s` between spaces, or its ends. */
  ghost predicate WordIn(s: string, before: string, w: string, after: string) {
    && s == before + w + after && ' ' !in w
    && (before == [] || before[|before| - 1] == ' ')
    && (after == [] || after[0] == ' ')
  }

  ghost predicate HasWord(s: string, w: string) {
    exists before, after :: WordIn(s, before, w, after)
  }

  lemma {:induction false} FirstWord(s: string)
    ensures var first := Words(s)[0];
            first <= s && ' ' !in first && (first == s || s[|first|] == ' ')
  {
    if s != [] && s[0] != ' ' {
      FirstWord(s[1..]);
    }
  }

  lemma FirstWordIs(s: string, w: string, after: string)
    requires WordIn(s, [], w, after)
    ensures w == Words(s)[0]
  {
    FirstWord(s);
    assert s == w + after;
    SameFirstWord(s, w, Words(s)[0]);
  }

  ghost predicate StartsWord(s: string, w: string) {
    w <= s && (forall k :: 0 <= k < |w| ==> w[k] != ' ') && (w == s || s[|w|] == ' ')
  }

  lemma {:induction false} SameFirstWord(s: string, w: string, v: string)
    requires StartsWord(s, w) && StartsWord(s, v)
    ensures w == v
    decreases w
  {
    if w != [] && v != [] {
      SameFirstWord(s[1..], w[1..], v[1..]);
      assert w == [w[0]] + w[1..] && v == [v[0]] + v[1..];
    }
  }

  /** The words after the first one. */
  lemma {:induction false} LaterWords(s: string, w: string)
    ensures w in Words(s)[1..] <==> exists before, after :: before != [] && WordIn(s, before, w, after)
    decreases s
  {
    if s != [] {
      var rest := s[1..];
      LaterWords(rest, w);
      if s[0] == ' ' {
        LaterAfterSpace(s, rest, w);
      } else {
        LaterAfterOther(s, rest, w);
      }
    }
  }

  lemma Shifted(s: string, before: string, w: string, after: string)
    requires before != [] && WordIn(s, before, w, after)
    ensures s != [] && s[0] == before[0] && s[1..] == before[1..] + w + after
    ensures (before[1..] == [] && s[0] == ' ') || (before[1..] != [] && WordIn(s[1..], before[1..], w, after))
  {
  }

  lemma Unshifted(s: string, before: string, w: string, after: string)
    requires s != [] && WordIn(s[1..], before, w, after) && (before != [] || s[0] == ' ')
    ensures WordIn(s, [s[0]] + before, w, after)
  {
    assert s == [s[0]] + s[1..];
    assert s == ([s[0]] + before) + w + after;
  }

  lemma LaterAfterSpace(s: string, rest: string, w: string)
    requires s != [] && s[0] == ' ' && rest == s[1..]
    requires w in Words(rest)[1..] <==> exists before, after :: before != [] && WordIn(rest, before, w, after)
    ensures w in Words(s)[1..] <==> exists before, after :: before != [] && WordIn(s, before, w, after)
  {
    assert Words(s)[1..] == Words(rest);
    WordsFrom(rest, w);
    if before, after :| WordIn(rest, before, w, after) {
      Unshifted(s, before, w, after);
    }
    if before, after :| before != [] && WordIn(s, before, w, after) {
      Shifted(s, before, w, after);
      WordAfterSpace(rest, before[1..], w, after);
    }
  }

  lemma WordAfterSpace(rest: string, before: string, w: string, after: string)
    requires before == [] || WordIn(rest, before, w, after)
    requires rest == before + w + after && ' ' !in w && (after == [] || after[0] == ' ')
    ensures WordIn(rest, before, w, after)
  {
  }

  /** If the later words are right, all are. */
  lemma WordsFrom(s: string, w: string)
    requires w in Words(s)[1..] <==> exists before, after :: before != [] && WordIn(s, before, w, after)
    ensures w in Words(s) <==> HasWord(s, w)
  {
    FirstWord(s);
    assert w in Words(s) <==> w == Words(s)[0] || w in Words(s)[1..];
    if w == Words(s)[0] {
      assert s == [] + w + s[|w|..];
      assert WordIn(s, [], w, s[|w|..]);
    }
    if before, after :| WordIn(s, before, w, after) {
      if before == [] {
        FirstWordIs(s, w, after);
      }
    }
  }

  lemma LaterAfterOther(s: string, rest: string, w: string)
    requires s != [] && s[0] != ' ' && rest == s[1..]
    requires w in Words(rest)[1..] <==> exists before, after :: before != [] && WordIn(rest, before, w, after)
    ensures w in Words(s)[1..] <==> exists before, after :: before != [] && WordIn(s, before, w, after)
  {
    assert Words(s)[1..] == Words(rest)[1..];
    if before, after :| before != [] && WordIn(rest, before, w, after) {
      Unshifted(s, before, w, after);
    }
    if before, after :| before != [] && WordIn(s, before, w, after) {
      Shifted(s, before, w, after);
    }
  }

  /** The words of a field, exactly. */
  lemma WordsAre(s: string, w: string)
    ensures w in Words(s) <==> HasWord(s, w)
  {
    LaterWords(s, w);
    WordsFrom(s, w);
  }

  /** The field does not exclude the value. */
  ghost predicate Allows(meta: Meta, field: string, value: string) {
    field in meta ==> HasWord(meta[field], value)
  }

  lemma SelectedIs(meta: Meta, format: string, distribution: string)
    ensures Selected(meta, format, distribution)
            <==> Allows(meta, "Formats", format) && Allows(meta, "Distributions", distribution)
  {
    if "Formats" in meta {
      WordsAre(meta["Formats"], format);
    }
    if "Distributions" in meta {
      WordsAre(meta["Distributions"], distribution);
    }
  }

  lemma {:induction false} SelectedMembers(generic: bool, dir: Subdir, names: seq<string>, format: string,
                                           distribution: string, item: Item)
    requires forall name :: name in names ==> name in dir
    ensures item in SelectedFiles(generic, dir, names, format, distribution) <==>
            item.generic == generic && item.name in names && Selected(dir[item.name].meta, format, distribution)
    decreases |names|
  {
    if names != [] {
      SelectedMembers(generic, dir, names[..|names| - 1], format, distribution, item);
      assert item.name in names <==> item.name in names[..|names| - 1] || item.name == names[|names| - 1];
    }
  }

  /** The patches of a build are the files of both directories whose fields do not
      exclude its format or its distribution. */
  lemma BuildPatchesAre(dirs: PatchesDirs, genericOrder: seq<string>, versionOrder: seq<string>,
                        format: string, distribution: string, item: Item)
    requires Listing(genericOrder, dirs.generic) && Listing(versionOrder, dirs.version)
    ensures var dir := if item.generic then dirs.generic else dirs.version;
            item in BuildPatches(dirs, genericOrder, versionOrder, format, distribution) <==>
            item.name in dir && Allows(dir[item.name].meta, "Formats", format)
            && Allows(dir[item.name].meta, "Distributions", distribution)
  {
    ListingMembers(genericOrder, dirs.generic);
    ListingMembers(versionOrder, dirs.version);
    SelectedMembers(true, dirs.generic, Sort(genericOrder), format, distribution, item);
    SelectedMembers(false, dirs.version, Sort(versionOrder), format, distribution, item);
    var dir := if item.generic then dirs.generic else dirs.version;
    if item.name in dir {
      SelectedIs(dir[item.name].meta, format, distribution);
    }
  }

  /** patch_selected(): the patch is not restricted to other formats or other
      distributions. */
  predicate Selected(meta: Meta, format: string, distribution: string) {
    && ("Formats" in meta ==> format in Words(meta["Formats"]))
    && ("Distributions" in meta ==> distribution in Words(meta["Distributions"]))
  }

  /** A patch of a build: which subdirectory it comes from, and its name. */
  datatype Item = Item(generic: bool, name: string)

  function SelectedFiles(generic: bool, dir: Subdir, names: seq<string>, format: string, distribution: string): seq<Item>
    requires forall name :: name in names ==> name in dir
  {
    if names == [] then []
    else
      var init, last := names[..|names| - 1], names[|names| - 1];
      SelectedFiles(generic, dir, init, format, distribution)
      + if Selected(dir[last].meta, format, distribution) then [Item(generic, last)] else []
  }

  /** The commits whose own metadata select them, under the names of their files. */
  function SelectedCommits(generic: bool, cs: seq<Commit>, format: string, distribution: string): seq<Item> {
    if cs == [] then []
    else
      var init, last := cs[..|cs| - 1], cs[|cs| - 1];
      SelectedCommits(generic, init, format, distribution)
      + if last.diff != "" && Selected(last.meta, format, distribution)
        then [Item(generic, FileName(|cs|, last.title))] else []
  }

  function SelectedGenerated(i: nat, g: Option<Generated>, format: string, distribution: string): seq<Item> {
    if g.Some? && Selected(g.value.file.meta, format, distribution)
    then [Item(false, FileName(i, g.value.title))] else []
  }

  lemma {:induction false} SelectionKept(generic: bool, dir: Subdir, more: Subdir, names: seq<string>,
                                         format: string, distribution: string)
    requires forall name :: name in names ==> name in dir && name in more && more[name] == dir[name]
    ensures SelectedFiles(generic, more, names, format, distribution)
            == SelectedFiles(generic, dir, names, format, distribution)
    decreases |names|
  {
    if names != [] {
      SelectionKept(generic, dir, more, names[..|names| - 1], format, distribution);
    }
  }

  /** Selection goes on with one more file. */
  lemma SelectedAppend(generic: bool, dir: Subdir, names: seq<string>, name: string, file: PatchFile,
                       format: string, distribution: string)
    requires (forall n :: n in names ==> n in dir) && name !in names
    ensures forall n :: n in names + [name] ==> n in dir[name := file]
    ensures SelectedFiles(generic, dir[name := file], names + [name], format, distribution)
            == SelectedFiles(generic, dir, names, format, distribution)
               + if Selected(file.meta, format, distribution) then [Item(generic, name)] else []
  {
    assert (names + [name])[..|names|] == names;
    SelectionKept(generic, dir, dir[name := file], names, format, distribution);
  }

  lemma ExportKeepsSelection(c: Commit, format: string, distribution: string)
    ensures Selected(ExportFile(c).meta, format, distribution) <==> Selected(c.meta, format, distribution)
  {
  }

  lemma SelectedNext(generic: bool, init: seq<Commit>, last: Commit, cs: seq<Commit>, format: string, distribution: string)
    requires cs == init + [last]
    requires forall name :: name in Names(init) ==> name in Numbered(init)
    requires SelectedFiles(generic, Numbered(init), Names(init), format, distribution)
             == SelectedCommits(generic, init, format, distribution)
    ensures forall name :: name in Names(cs) ==> name in Numbered(cs)
    ensures SelectedFiles(generic, Numbered(cs), Names(cs), format, distribution)
            == SelectedCommits(generic, cs, format, distribution)
  {
    assert cs[..|cs| - 1] == init && cs[|cs| - 1] == last;
    if last.diff != "" {
      NameIsNew(init, |cs|, last.title);
      SelectedAppend(generic, Numbered(init), Names(init), FileName(|cs|, last.title), ExportFile(last), format, distribution);
      ExportKeepsSelection(last, format, distribution);
    } else {
      assert Names(cs) == Names(init) && Numbered(cs) == Numbered(init);
    }
  }

  lemma SelectedNone(generic: bool, format: string, distribution: string)
    ensures forall name :: name in Names([]) ==> name in Numbered([])
    ensures SelectedFiles(generic, Numbered([]), Names([]), format, distribution)
            == SelectedCommits(generic, [], format, distribution)
  {
  }

  lemma {:induction false} SelectedOfNumbered(generic: bool, cs: seq<Commit>, format: string, distribution: string)
    ensures forall name :: name in Names(cs) ==> name in Numbered(cs)
    ensures SelectedFiles(generic, Numbered(cs), Names(cs), format, distribution)
            == SelectedCommits(generic, cs, format, distribution)
    decreases |cs|
  {
    if cs == [] {
      SelectedNone(generic, format, distribution);
    } else {
      var init, last := cs[..|cs| - 1], cs[|cs| - 1];
      SelectedOfNumbered(generic, init, format, distribution);
      SelectedNext(generic, init, last, cs, format, distribution);
    }
  }

  /** A generated patch is selected after the others. */
  lemma SelectedAdded(dir: Subdir, names: seq<string>, i: nat, g: Option<Generated>, format: string, distribution: string)
    requires (forall n :: n in names ==> n in dir) && (g.Some? ==> FileName(i, g.value.title) !in names)
    ensures forall n :: n in AddName(names, i, g) ==> n in AddFile(dir, i, g)
    ensures SelectedFiles(false, AddFile(dir, i, g), AddName(names, i, g), format, distribution)
            == SelectedFiles(false, dir, names, format, distribution) + SelectedGenerated(i, g, format, distribution)
  {
    if g.Some? {
      SelectedAppend(false, dir, names, FileName(i, g.value.title), g.value.file, format, distribution);
    }
  }

  /** The version subdirectory of a build: what was exported, then what the build
      generates under the indices 9998 and 9999. */
  lemma PatchesOfVersion(vs: seq<Commit>, symlinks: Option<Generated>, prescript: Option<Generated>,
                         order: seq<string>, format: string, distribution: string)
    requires |vs| <= 9997
    requires Listing(order, AddFile(AddFile(Numbered(vs), 9998, symlinks), 9999, prescript))
    ensures var dir := AddFile(AddFile(Numbered(vs), 9998, symlinks), 9999, prescript);
            && (forall name :: name in Sort(order) ==> name in dir)
            && SelectedFiles(false, dir, Sort(order), format, distribution)
               == SelectedCommits(false, vs, format, distribution)
                  + SelectedGenerated(9998, symlinks, format, distribution)
                  + SelectedGenerated(9999, prescript, format, distribution)
  {
    NamesAreSorted(vs);
    NamesOfNumbered(vs);
    SelectedOfNumbered(false, vs, format, distribution);
    AddTwo(Names(vs), Numbered(vs), |vs|, 9998, symlinks, 9999, prescript, order, format, distribution);
  }

  lemma AddTwo(names: seq<string>, dir: Subdir, n: nat, i: nat, g: Option<Generated>, j: nat, h: Option<Generated>,
               order: seq<string>, format: string, distribution: string)
    requires Sorted(names) && IndexedUpTo(names, n) && Elements(names) == dir.Keys && n < i < j <= 9999
    requires Listing(order, AddFile(AddFile(dir, i, g), j, h))
    ensures forall name :: name in names ==> name in dir
    ensures forall name :: name in Sort(order) ==> name in AddFile(AddFile(dir, i, g), j, h)
    ensures SelectedFiles(false, AddFile(AddFile(dir, i, g), j, h), Sort(order), format, distribution)
            == SelectedFiles(false, dir, names, format, distribution)
               + SelectedGenerated(i, g, format, distribution) + SelectedGenerated(j, h, format, distribution)
  {
    assert forall name :: name in names ==> name in Elements(names);
    AddedNameComesLast(names, dir, n, i, g);
    SelectedAdded(dir, names, i, g, format, distribution);
    var more := AddName(names, i, g);
    AddedNameComesLast(more, AddFile(dir, i, g), i, j, h);
    SelectedAdded(AddFile(dir, i, g), more, j, h, format, distribution);
    SortIs(order, AddName(more, j, h));
  }

  /** Both subdirectories of a patches directory. */
  datatype PatchesDirs = PatchesDirs(generic: Subdir, version: Subdir)

  /** ArtifactBuild.patches, from one listing of each subdirectory. */
  ghost function BuildPatches(dirs: PatchesDirs, genericOrder: seq<string>, versionOrder: seq<string>,
                              format: string, distribution: string): seq<Item>
    requires Listing(genericOrder, dirs.generic) && Listing(versionOrder, dirs.version)
  {
    SortedListing(genericOrder, dirs.generic);
    SortedListing(versionOrder, dirs.version);
    SelectedFiles(true, dirs.generic, Sort(genericOrder), format, distribution)
    + SelectedFiles(false, dirs.version, Sort(versionOrder), format, distribution)
  }

  /** The patches of a build, whatever the order of both listings: the generic commits
      that select it, then those of the version, each class from its oldest, then
      the generated patches. */
  lemma PatchesOfBuild(gs: seq<Commit>, vs: seq<Commit>, symlinks: Option<Generated>, prescript: Option<Generated>,
                       dirs: PatchesDirs, genericOrder: seq<string>, versionOrder: seq<string>,
                       format: string, distribution: string)
    requires |gs| <= 9999 && |vs| <= 9997
    requires dirs.generic == Numbered(gs)
    requires dirs.version == AddFile(AddFile(Numbered(vs), 9998, symlinks), 9999, prescript)
    requires Listing(genericOrder, dirs.generic) && Listing(versionOrder, dirs.version)
    ensures BuildPatches(dirs, genericOrder, versionOrder, format, distribution)
            == SelectedCommits(true, gs, format, distribution) + SelectedCommits(false, vs, format, distribution)
               + SelectedGenerated(9998, symlinks, format, distribution)
               + SelectedGenerated(9999, prescript, format, distribution)
  {
    PatchesInOrder(gs, genericOrder);
    SelectedOfNumbered(true, gs, format, distribution);
    PatchesOfVersion(vs, symlinks, prescript, versionOrder, format, distribution);
    AppendFour(SelectedCommits(true, gs, format, distribution), SelectedCommits(false, vs, format, distribution),
               SelectedGenerated(9998, symlinks, format, distribution),
               SelectedGenerated(9999, prescript, format, distribution));
  }

  lemma AppendFour(a: seq<Item>, b: seq<Item>, c: seq<Item>, d: seq<Item>)
    ensures a + (b + c + d) == a + b + c + d
  {
  }

  // ---- import ----

  /** The commits of the files named, oldest first, None when one raises. */
  function ImportFiles(generic: bool, dir: Subdir, names: seq<string>): Option<seq<Commit>>
    requires forall name :: name in names ==> name in dir
  {
    if names == [] then Some([])
    else
      var n := |names|;
      match ImportFiles(generic, dir, names[..n - 1])
      case None => None
      case Some(before) =>
        match ApplyPatch(generic, names[n - 1], dir[names[n - 1]])
        case None => None
        case Some(c) => Some(before + [c])
  }

  function WithDiff(cs: seq<Commit>): seq<Commit> {
    if cs == [] then []
    else WithDiff(cs[..|cs| - 1]) + if cs[|cs| - 1].diff == "" then [] else [cs[|cs| - 1]]
  }

  function NormalAll(cs: seq<Commit>): (out: seq<Commit>)
    ensures |out| == |cs| && forall k :: 0 <= k < |cs| ==> out[k] == Normal(cs[k])
  {
    seq(|cs|, k requires 0 <= k < |cs| => Normal(cs[k]))
  }

  ghost predicate AllImportable(cs: seq<Commit>) {
    forall c :: c in cs ==> Importable(c)
  }

  lemma {:induction false} ImportKeepsOthers(generic: bool, dir: Subdir, more: Subdir, names: seq<string>)
    requires forall name :: name in names ==> name in dir && name in more && more[name] == dir[name]
    ensures ImportFiles(generic, more, names) == ImportFiles(generic, dir, names)
    decreases |names|
  {
    if names != [] {
      ImportKeepsOthers(generic, dir, more, names[..|names| - 1]);
    }
  }

  lemma ImportAppend(generic: bool, dir: Subdir, names: seq<string>, name: string, before: seq<Commit>, c: Commit)
    requires (forall n :: n in names ==> n in dir) && name in dir
    requires ImportFiles(generic, dir, names) == Some(before)
    requires ApplyPatch(generic, name, dir[name]) == Some(c)
    ensures forall n :: n in names + [name] ==> n in dir
    ensures ImportFiles(generic, dir, names + [name]) == Some(before + [c])
  {
    assert (names + [name])[..|names|] == names;
  }

  /** The name of a later commit is not among those of the earlier ones. */
  lemma NameIsNew(cs: seq<Commit>, i: nat, title: string)
    requires |cs| < i
    ensures FileName(i, title) !in Names(cs) && FileName(i, title) !in Numbered(cs)
  {
    NamesOfNumbered(cs);
    forall name | name in Names(cs)
      ensures name != FileName(i, title)
    {
      var k: nat, t :| k <= |cs| && name == FileName(k, t);
      NamesDiffer(k, t, i, title);
    }
  }

  lemma NormalAppend(cs: seq<Commit>, c: Commit)
    ensures NormalAll(cs + [c]) == NormalAll(cs) + [Normal(c)]
  {
  }

  lemma ImportLast(init: seq<Commit>, last: Commit, generic: bool, name: string, dir: Subdir)
    requires forall n :: n in Names(init) ==> n in Numbered(init)
    requires ImportFiles(generic, Numbered(init), Names(init)) == Some(NormalAll(WithDiff(init)))
    requires name !in Names(init) && dir == Numbered(init)[name := ExportFile(last)]
    requires ApplyPatch(generic, name, ExportFile(last)) == Some(Normal(last))
    ensures forall n :: n in Names(init) + [name] ==> n in dir
    ensures ImportFiles(generic, dir, Names(init) + [name]) == Some(NormalAll(WithDiff(init) + [last]))
  {
    ImportKeepsOthers(generic, Numbered(init), dir, Names(init));
    ImportAppend(generic, dir, Names(init), name, NormalAll(WithDiff(init)), Normal(last));
    NormalAppend(WithDiff(init), last);
  }

  lemma ImportMore(cs: seq<Commit>, init: seq<Commit>, last: Commit, generic: bool)
    requires cs == init + [last] && Importable(last) && IsGeneric(last.meta) == generic
    requires forall name :: name in Names(init) ==> name in Numbered(init)
    requires ImportFiles(generic, Numbered(init), Names(init)) == Some(NormalAll(WithDiff(init)))
    ensures forall name :: name in Names(cs) ==> name in Numbered(cs)
    ensures ImportFiles(generic, Numbered(cs), Names(cs)) == Some(NormalAll(WithDiff(cs)))
  {
    var n := |init| + 1;
    assert cs[..n - 1] == init && cs[n - 1] == last;
    if last.diff != "" {
      NameIsNew(init, n, last.title);
      FileRoundTrip(last, n);
      ImportLast(init, last, generic, FileName(n, last.title), Numbered(cs));
    } else {
      assert Names(cs) == Names(init) && WithDiff(cs) == WithDiff(init);
    }
  }

  lemma ImportNone(generic: bool)
    ensures forall name :: name in Names([]) ==> name in Numbered([])
    ensures ImportFiles(generic, Numbered([]), Names([])) == Some(NormalAll(WithDiff([])))
  {
  }

  lemma InitImportable(cs: seq<Commit>, generic: bool)
    requires cs != [] && AllImportable(cs) && forall c :: c in cs ==> IsGeneric(c.meta) == generic
    ensures var init, last := cs[..|cs| - 1], cs[|cs| - 1];
            && cs == init + [last] && Importable(last) && IsGeneric(last.meta) == generic
            && AllImportable(init) && forall c :: c in init ==> IsGeneric(c.meta) == generic
  {
    assert cs[|cs| - 1] in cs;
  }

  lemma {:induction false} ImportNumbered(cs: seq<Commit>, generic: bool)
    requires AllImportable(cs) && forall c :: c in cs ==> IsGeneric(c.meta) == generic
    ensures forall name :: name in Names(cs) ==> name in Numbered(cs)
    ensures ImportFiles(generic, Numbered(cs), Names(cs)) == Some(NormalAll(WithDiff(cs)))
    decreases |cs|
  {
    if cs == [] {
      ImportNone(generic);
    } else {
      var init, last := cs[..|cs| - 1], cs[|cs| - 1];
      InitImportable(cs, generic);
      ImportNumbered(init, generic);
      ImportMore(cs, init, last, generic);
    }
  }

  lemma {:induction false} OldestFirstMembers(history: seq<Commit>, generic: bool)
    ensures forall c :: c in OldestFirst(history, generic) <==> c in history && IsGeneric(c.meta) == generic
  {
    if history != [] {
      OldestFirstMembers(history[1..], generic);
      assert history == [history[0]] + history[1..];
    }
  }

  /** A newest-first history loses its head, which is the last of its class. */
  lemma ClassStep(history: seq<Commit>, k: nat, flag: bool, cs: seq<Commit>, index: nat)
    requires k < |history| && index <= |cs|
    requires OldestFirst(history[k..], flag) == cs[..index]
    ensures if IsGeneric(history[k].meta) == flag
            then index >= 1 && cs[index - 1] == history[k] && OldestFirst(history[k + 1..], flag) == cs[..index - 1]
            else OldestFirst(history[k + 1..], flag) == cs[..index]
  {
    var rest := history[k..];
    assert rest[0] == history[k] && rest[1..] == history[k + 1..];
    if IsGeneric(history[k].meta) == flag {
      var older := OldestFirst(rest[1..], flag);
      assert older + [rest[0]] == cs[..index];
      assert older == cs[..index][..index - 1] == cs[..index - 1];
      assert cs[..index][index - 1] == rest[0];
    } else {
      assert OldestFirst(rest[1..], flag) + [] == OldestFirst(rest[1..], flag);
    }
  }

  lemma ExportStarts(history: seq<Commit>, flag: bool)
    ensures var cs := OldestFirst(history, flag);
            OldestFirst(history[0..], flag) == cs[..|cs|] && NumberedAfter(cs, |cs|) == map[]
  {
    assert history[0..] == history;
  }

  lemma ExportEnds(history: seq<Commit>, flag: bool, cs: seq<Commit>, index: nat)
    requires index <= |cs| && OldestFirst(history[|history|..], flag) == cs[..index]
    ensures index == 0 && NumberedAfter(cs, index) == Numbered(cs)
  {
    assert |cs[..index]| == index;
  }

  /** What export_queue() does with one commit numbers it in its class. */
  lemma ExportStep(history: seq<Commit>, k: nat, flag: bool, cs: seq<Commit>, index: nat)
    requires k < |history| && index <= |cs|
    requires OldestFirst(history[k..], flag) == cs[..index]
    ensures var c := history[k];
            if IsGeneric(c.meta) == flag
            then index >= 1 && OldestFirst(history[k + 1..], flag) == cs[..index - 1]
                 && NumberedAfter(cs, index - 1) ==
                    if c.diff == "" then NumberedAfter(cs, index)
                    else NumberedAfter(cs, index)[FileName(index, c.title) := ExportFile(c)]
            else OldestFirst(history[k + 1..], flag) == cs[..index]
  {
    ClassStep(history, k, flag, cs, index);
    if IsGeneric(history[k].meta) == flag {
      NumberedStep(cs, index);
    }
  }

  /** The commits marked generic are in the generic directory and the others in the
      other one, each under its number in its class. */
  ghost predicate ExportedQueue(history: seq<Commit>, generic: Subdir, version: Subdir) {
    && FilesOf(generic, OldestFirst(history, true)) && FilesOf(version, OldestFirst(history, false))
    && (forall c :: c in OldestFirst(history, true) <==>
          c in history && "Generic" in c.meta && c.meta["Generic"] == "yes")
    && (forall c :: c in OldestFirst(history, false) <==>
          c in history && !("Generic" in c.meta && c.meta["Generic"] == "yes"))
  }

  lemma ExportMeans(history: seq<Commit>)
    ensures ExportedQueue(history, Numbered(OldestFirst(history, true)), Numbered(OldestFirst(history, false)))
  {
    NumberedFiles(OldestFirst(history, true));
    NumberedFiles(OldestFirst(history, false));
    OldestFirstMembers(history, true);
    OldestFirstMembers(history, false);
  }

  // ---- the two directories ----

  /** The subdirectories of a patches directory, and what is done in place there. */
  class PatchesDir {
    var generic: Subdir
    var version: Subdir

    constructor (generic: Subdir, version: Subdir)
      ensures this.generic == generic && this.version == version
    {
      this.generic, this.version := generic, version;
    }

    /** The first loop of export_queue(). */
    method CountCommits(history: seq<Commit>) returns (indexGeneric: nat, indexVersion: nat)
      ensures indexGeneric == |OldestFirst(history, true)| && indexVersion == |OldestFirst(history, false)|
    {
      indexGeneric, indexVersion := 0, 0;
      assert history[0..] == history;
      for k := 0 to |history|
        invariant indexGeneric + |OldestFirst(history[k..], true)| == |OldestFirst(history, true)|
        invariant indexVersion + |OldestFirst(history[k..], false)| == |OldestFirst(history, false)|
      {
        assert history[k..][1..] == history[k + 1..];
        if IsGeneric(history[k].meta) {
          indexGeneric := indexGeneric + 1;
        } else {
          indexVersion := indexVersion + 1;
        }
      }
    }

    /** export_queue(), with what its files are. */
    method ExportQueue(history: seq<Commit>)
      requires forall c :: c in history ==> '/' !in c.title && '\n' !in c.title
      modifies this
      ensures generic == Numbered(OldestFirst(history, true))
      ensures version == Numbered(OldestFirst(history, false))
      ensures ExportedQueue(history, generic, version)
    {
      WriteQueue(history);
      ExportMeans(history);
    }

    /** export_queue(): old files go away, and each class of commits is numbered
        from 1 for its oldest.  `history` is newest first, without the first
        commit of the repository. */
    method WriteQueue(history: seq<Commit>)
      requires forall c :: c in history ==> '/' !in c.title && '\n' !in c.title
      modifies this
      ensures generic == Numbered(OldestFirst(history, true))
      ensures version == Numbered(OldestFirst(history, false))
    {
      generic, version := map[], map[];
      ghost var gs, vs := OldestFirst(history, true), OldestFirst(history, false);
      var indexGeneric, indexVersion := CountCommits(history);
      ExportStarts(history, true);
      ExportStarts(history, false);
      for k := 0 to |history|
        invariant 0 <= indexGeneric <= |gs| && OldestFirst(history[k..], true) == gs[..indexGeneric]
        invariant 0 <= indexVersion <= |vs| && OldestFirst(history[k..], false) == vs[..indexVersion]
        invariant generic == NumberedAfter(gs, indexGeneric)
        invariant version == NumberedAfter(vs, indexVersion)
      {
        var commit := history[k];
        ExportStep(history, k, true, gs, indexGeneric);
        ExportStep(history, k, false, vs, indexVersion);
        if IsGeneric(commit.meta) {
          if commit.diff != "" {
            generic := generic[FileName(indexGeneric, commit.title) := ExportFile(commit)];
          }
          indexGeneric := indexGeneric - 1;
        } else {
          if commit.diff != "" {
            version := version[FileName(indexVersion, commit.title) := ExportFile(commit)];
          }
          indexVersion := indexVersion - 1;
        }
      }
      ExportEnds(history, true, gs, indexGeneric);
      ExportEnds(history, false, vs, indexVersion);
    }

    /** ArtifactBuild.patches: the selected patches of both subdirectories. */
    method Patches(genericOrder: seq<string>, versionOrder: seq<string>, format: string, distribution: string)
      returns (patches: seq<Item>)
      requires Listing(genericOrder, generic) && Listing(versionOrder, version)
      ensures patches == BuildPatches(PatchesDirs(generic, version), genericOrder, versionOrder, format, distribution)
      ensures forall item: Item ::
                item in patches <==>
                var dir := if item.generic then generic else version;
                item.name in dir && Allows(dir[item.name].meta, "Formats", format)
                && Allows(dir[item.name].meta, "Distributions", distribution)
    {
      forall item: Item
        ensures var dir := if item.generic then generic else version;
                item in BuildPatches(PatchesDirs(generic, version), genericOrder, versionOrder, format, distribution) <==>
                item.name in dir && Allows(dir[item.name].meta, "Formats", format)
                && Allows(dir[item.name].meta, "Distributions", distribution)
      {
        BuildPatchesAre(PatchesDirs(generic, version), genericOrder, versionOrder, format, distribution, item);
      }
      var g := SelectFrom(true, generic, genericOrder, format, distribution);
      var v := SelectFrom(false, version, versionOrder, format, distribution);
      patches := g + v;
    }

    /** import_patches(): the commits made, oldest first, the generic ones before
        the others; None when a patch raises. */
    method ImportPatches(genericOrder: seq<string>, versionOrder: seq<string>) returns (commits: Option<seq<Commit>>)
      requires Listing(genericOrder, generic) && Listing(versionOrder, version)
      ensures forall name :: name in Sort(genericOrder) ==> name in generic
      ensures forall name :: name in Sort(versionOrder) ==> name in version
      ensures var g := ImportFiles(true, generic, Sort(genericOrder));
              var v := ImportFiles(false, version, Sort(versionOrder));
              commits == if g.None? || v.None? then None else Some(g.value + v.value)
      ensures commits == None <==>
              || (exists name :: name in generic && Refused(name, generic[name]))
              || (exists name :: name in version && Refused(name, version[name]))
      ensures commits.Some? ==>
                var n := |Sort(genericOrder)|;
                && n <= |commits.value|
                && AllImported(true, generic, Sort(genericOrder), commits.value[..n])
                && AllImported(false, version, Sort(versionOrder), commits.value[n..])
    {
      SortedListing(genericOrder, generic);
      SortedListing(versionOrder, version);
      var g := ImportSubdir(true, generic, genericOrder);
      if g == None {
        return None;
      }
      var v := ImportSubdir(false, version, versionOrder);
      if v == None {
        return None;
      }
      commits := Some(g.value + v.value);
    }
  }

  /** The comprehension over one subdirectory. */
  method SelectFrom(generic: bool, dir: Subdir, order: seq<string>, format: string, distribution: string)
    returns (items: seq<Item>)
    requires Listing(order, dir)
    ensures forall name :: name in Sort(order) ==> name in dir
    ensures items == SelectedFiles(generic, dir, Sort(order), format, distribution)
  {
    SortedListing(order, dir);
    var names := Sort(order);
    items := [];
    for k := 0 to |names|
      invariant items == SelectedFiles(generic, dir, names[..k], format, distribution)
    {
      SelectStep(generic, dir, names, k, format, distribution);
      if Selected(dir[names[k]].meta, format, distribution) {
        items := items + [Item(generic, names[k])];
      }
    }
    assert names[..|names|] == names;
  }

  lemma SelectStep(generic: bool, dir: Subdir, names: seq<string>, k: nat, format: string, distribution: string)
    requires k < |names| && forall name :: name in names ==> name in dir
    ensures SelectedFiles(generic, dir, names[..k + 1], format, distribution)
            == SelectedFiles(generic, dir, names[..k], format, distribution)
               + if Selected(dir[names[k]].meta, format, distribution) then [Item(generic, names[k])] else []
  {
    assert names[..k + 1][..k] == names[..k];
  }

  lemma SortedListing(order: seq<string>, dir: Subdir)
    requires Listing(order, dir)
    ensures forall name :: name in Sort(order) ==> name in dir
  {
    SortIsSorted(order);
    assert forall name :: name in Sort(order) ==> name in Elements(Sort(order));
  }

  lemma ImportStep(generic: bool, dir: Subdir, names: seq<string>, k: nat)
    requires k < |names| && forall name :: name in names ==> name in dir
    ensures var made := ImportFiles(generic, dir, names[..k]);
            var commit := ApplyPatch(generic, names[k], dir[names[k]]);
            ImportFiles(generic, dir, names[..k + 1]) ==
            if made.None? || commit.None? then None else Some(made.value + [commit.value])
  {
    assert names[..k + 1][..k] == names[..k];
  }

  /** One commit for each file, in the order of the names. */
  ghost predicate AllImported(generic: bool, dir: Subdir, names: seq<string>, commits: seq<Commit>) {
    && |commits| == |names|
    && forall k :: 0 <= k < |names| ==> names[k] in dir && Imported(generic, names[k], dir[names[k]], commits[k])
  }

  lemma {:induction false} ImportByFile(generic: bool, dir: Subdir, names: seq<string>)
    requires forall name :: name in names ==> name in dir
    ensures ImportFiles(generic, dir, names).Some? <==>
            forall k :: 0 <= k < |names| ==> ApplyPatch(generic, names[k], dir[names[k]]).Some?
    ensures ImportFiles(generic, dir, names).Some? ==>
              var commits := ImportFiles(generic, dir, names).value;
              && |commits| == |names|
              && forall k :: 0 <= k < |names| ==> ApplyPatch(generic, names[k], dir[names[k]]) == Some(commits[k])
    decreases |names|
  {
    if names != [] {
      ImportByFile(generic, dir, names[..|names| - 1]);
    }
  }

  lemma ImportedAll(generic: bool, dir: Subdir, names: seq<string>, commits: seq<Commit>)
    requires forall name :: name in names ==> name in dir
    requires |commits| == |names|
    requires forall k :: 0 <= k < |names| ==> ApplyPatch(generic, names[k], dir[names[k]]) == Some(commits[k])
    ensures AllImported(generic, dir, names, commits)
  {
    forall k | 0 <= k < |names|
      ensures names[k] in dir && Imported(generic, names[k], dir[names[k]], commits[k])
    {
      AppliedIsImported(generic, names[k], dir[names[k]]);
    }
  }

  lemma ImportMeans(generic: bool, dir: Subdir, names: seq<string>)
    requires forall name :: name in names ==> name in dir
    ensures ImportFiles(generic, dir, names) == None <==> exists name :: name in names && Refused(name, dir[name])
    ensures ImportFiles(generic, dir, names).Some? ==>
              AllImported(generic, dir, names, ImportFiles(generic, dir, names).value)
  {
    ImportByFile(generic, dir, names);
    forall name | name in names
      ensures ApplyPatch(generic, name, dir[name]) == None <==> Refused(name, dir[name])
    {
      NoneIsRefused(generic, name, dir[name]);
    }
    if ImportFiles(generic, dir, names).Some? {
      ImportedAll(generic, dir, names, ImportFiles(generic, dir, names).value);
    } else {
      var k :| 0 <= k < |names| && ApplyPatch(generic, names[k], dir[names[k]]).None?;
      assert names[k] in names;
    }
  }

  lemma ListingMembers(order: seq<string>, dir: Subdir)
    requires Listing(order, dir)
    ensures forall name :: name in Sort(order) <==> name in dir
  {
    SortIsSorted(order);
    assert forall name :: name in Sort(order) <==> name in Elements(Sort(order));
  }

  /** _import_patches_subdir() */
  method ImportSubdir(generic: bool, dir: Subdir, order: seq<string>) returns (commits: Option<seq<Commit>>)
    requires Listing(order, dir)
    ensures forall name :: name in Sort(order) ==> name in dir
    ensures commits == ImportFiles(generic, dir, Sort(order))
    ensures commits == None <==> exists name :: name in dir && Refused(name, dir[name])
    ensures commits.Some? ==> AllImported(generic, dir, Sort(order), commits.value)
  {
    commits := ApplyAll(generic, dir, order);
    ListingMembers(order, dir);
    ImportMeans(generic, dir, Sort(order));
  }

  method ApplyAll(generic: bool, dir: Subdir, order: seq<string>) returns (commits: Option<seq<Commit>>)
    requires Listing(order, dir)
    ensures forall name :: name in Sort(order) ==> name in dir
    ensures commits == ImportFiles(generic, dir, Sort(order))
  {
    SortedListing(order, dir);
    var names := Sort(order);
    var made := [];
    for k := 0 to |names|
      invariant ImportFiles(generic, dir, names[..k]) == Some(made)
    {
      ImportStep(generic, dir, names, k);
      var commit := ApplyPatch(generic, names[k], dir[names[k]]);
      if commit == None {
        ImportStopsAt(generic, dir, names, k + 1);
        return None;
      }
      made := made + [commit.value];
    }
    assert names[..|names|] == names;
    commits := Some(made);
  }

  /** A patch that raises stops the whole import. */
  lemma {:induction false} ImportStopsAt(generic: bool, dir: Subdir, names: seq<string>, k: nat)
    requires k <= |names| && forall name :: name in names ==> name in dir
    requires ImportFiles(generic, dir, names[..k]) == None
    ensures ImportFiles(generic, dir, names) == None
    decreases |names|
  {
    if k < |names| {
      assert names[..|names| - 1][..k] == names[..k];
      ImportStopsAt(generic, dir, names[..|names| - 1], k);
    } else {
      assert names[..k] == names;
    }
  }

  // ---- the main theorems ----

  /** A patch queue exported from a linear history and imported again, whatever the
      order in which the directories list it, is the stable partition of the
      history: its generic commits, then the others, each class in its order,
      without the commits that have no diff. */
  lemma ExportImportIsStablePartition(history: seq<Commit>, genericOrder: seq<string>, versionOrder: seq<string>)
    requires AllImportable(history)
    requires |OldestFirst(history, true)| <= 9999 && |OldestFirst(history, false)| <= 9999
    requires Listing(genericOrder, Numbered(OldestFirst(history, true)))
    requires Listing(versionOrder, Numbered(OldestFirst(history, false)))
    ensures var gs, vs := OldestFirst(history, true), OldestFirst(history, false);
            && (forall name :: name in Sort(genericOrder) ==> name in Numbered(gs))
            && (forall name :: name in Sort(versionOrder) ==> name in Numbered(vs))
            && ImportFiles(true, Numbered(gs), Sort(genericOrder)) == Some(NormalAll(WithDiff(gs)))
            && ImportFiles(false, Numbered(vs), Sort(versionOrder)) == Some(NormalAll(WithDiff(vs)))
  {
    var gs, vs := OldestFirst(history, true), OldestFirst(history, false);
    OldestFirstMembers(history, true);
    OldestFirstMembers(history, false);
    PatchesInOrder(gs, genericOrder);
    PatchesInOrder(vs, versionOrder);
    ImportNumbered(gs, true);
    ImportNumbered(vs, false);
  }

  function Reverse(cs: seq<Commit>): seq<Commit> {
    if cs == [] then [] else Reverse(cs[1..]) + [cs[0]]
  }

  lemma {:induction false} OldestFirstOfReverse(a: seq<Commit>, generic: bool, flag: bool)
    requires forall c :: c in a ==> IsGeneric(c.meta) == flag
    ensures OldestFirst(Reverse(a), generic) == if generic == flag then a else []
    decreases |a|
  {
    if a != [] {
      OldestFirstOfReverse(a[1..], generic, flag);
      OldestFirstOfConcat(Reverse(a[1..]), [a[0]], generic);
      OldestFirstOfOne(a[0], generic);
      assert a == [a[0]] + a[1..];
    }
  }

  lemma OldestFirstOfOne(c: Commit, generic: bool)
    ensures OldestFirst([c], generic) == if IsGeneric(c.meta) == generic then [c] else []
  {
    assert [c][1..] == [];
  }

  lemma {:induction false} OldestFirstOfConcat(a: seq<Commit>, b: seq<Commit>, generic: bool)
    ensures OldestFirst(a + b, generic) == OldestFirst(b, generic) + OldestFirst(a, generic)
    decreases |a|
  {
    if a == [] {
      assert a + b == b;
    } else {
      OldestFirstOfConcat(a[1..], b, generic);
      assert (a + b)[1..] == a[1..] + b;
    }
  }

  lemma {:induction false} ReverseOfConcat(a: seq<Commit>, b: seq<Commit>)
    ensures Reverse(a + b) == Reverse(b) + Reverse(a)
    decreases |a|
  {
    if a == [] {
      assert a + b == b;
    } else {
      ReverseOfConcat(a[1..], b);
      assert (a + b)[1..] == a[1..] + b;
    }
  }

  lemma {:induction false} NumberedOfNormal(cs: seq<Commit>)
    ensures Numbered(NormalAll(cs)) == Numbered(cs)
    decreases |cs|
  {
    if cs != [] {
      NumberedOfNormal(cs[..|cs| - 1]);
      assert NormalAll(cs)[..|cs| - 1] == NormalAll(cs[..|cs| - 1]);
      NormalKeeps(cs[|cs| - 1]);
    }
  }

  lemma NormalAllClass(cs: seq<Commit>, flag: bool)
    requires forall c :: c in cs ==> IsGeneric(c.meta) == flag
    ensures forall c :: c in NormalAll(cs) ==> IsGeneric(c.meta) == flag
  {
    forall c | c in NormalAll(cs)
      ensures IsGeneric(c.meta) == flag
    {
      var k :| 0 <= k < |cs| && c == NormalAll(cs)[k];
      NormalKeeps(cs[k]);
    }
  }

  lemma {:induction false} WithDiffIsAll(cs: seq<Commit>)
    requires forall c :: c in cs ==> c.diff != ""
    ensures WithDiff(cs) == cs
    decreases |cs|
  {
    if cs != [] {
      WithDiffIsAll(cs[..|cs| - 1]);
      assert cs == cs[..|cs| - 1] + [cs[|cs| - 1]];
    }
  }

  /** Importing a queue and exporting it again writes the same files, when no
      commit of the history lacks a diff. */
  lemma ReexportIsIdentity(history: seq<Commit>, generic: bool)
    requires forall c :: c in history ==> c.diff != ""
    ensures var gs, vs := OldestFirst(history, true), OldestFirst(history, false);
            var imported := NormalAll(WithDiff(gs)) + NormalAll(WithDiff(vs));
            Numbered(OldestFirst(Reverse(imported), generic)) == Numbered(OldestFirst(history, generic))
  {
    var gs, vs := OldestFirst(history, true), OldestFirst(history, false);
    OldestFirstMembers(history, true);
    OldestFirstMembers(history, false);
    WithDiffIsAll(gs);
    WithDiffIsAll(vs);
    var g, v := NormalAll(gs), NormalAll(vs);
    NormalAllClass(gs, true);
    NormalAllClass(vs, false);
    ReverseOfConcat(g, v);
    OldestFirstOfConcat(Reverse(v), Reverse(g), generic);
    OldestFirstOfReverse(g, generic, true);
    OldestFirstOfReverse(v, generic, false);
    assert OldestFirst(Reverse(g + v), generic) == if generic then g else v;
    NumberedOfNormal(gs);
    NumberedOfNormal(vs);
  }
}
