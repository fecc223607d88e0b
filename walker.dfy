/**
 The walk of cattree's `main`: `filepath.WalkDir` over the tree under a
 root, with the callback that prunes `.git` directories, skips ignored
 paths, classifies each file and prints a record for every text file.

 The file system is an `Entry` tree whose children are in the order the
 directory listing yields them; each I/O call the walk makes is a field
 holding its outcome. The walk is a function producing the bytes written
 to standard output and the lines written to standard error.
 */
module Walker {
  import opened Utf8
  import opened Classifier

  /** A file name or path, as Go's byte string. */
  type Name = seq<Byte>

  datatype Option<T> = None | Some(value: T)

  /** The ignore matcher: does a relative path match one of the rules? */
  type Matcher = Name -> bool

  /**
   A node of the tree. A directory's `listing` is what `os.ReadDir` reports
   after reading `children` (on failure, the entries read before it). A
   file records the outcome of the open and the read in `isTextFile`, and
   of the second open that copies its contents out.
   */
  datatype Entry =
    | Dir(name: Name, children: seq<Entry>, listing: Outcome)
    | File(name: Name, contents: seq<Byte>, sniffOpen: Outcome, sniffRead: Outcome, copyOpen: Outcome)

  /** What `os.Lstat` finds at the root path. */
  datatype Root = Missing(err: seq<Byte>) | Present(top: Entry)

  /** What the walk writes: standard output, and standard error line by line. */
  datatype Output = Output(stdout: seq<Byte>, stderr: seq<seq<Byte>>)

  /** The bytes of an ASCII string. */
  function Ascii(s: string): (b: seq<Byte>)
    requires forall i :: 0 <= i < |s| ==> s[i] < 128 as char
    ensures |b| == |s| && forall i :: 0 <= i < |s| ==> b[i] == s[i] as int
  {
    seq(|s|, i requires 0 <= i < |s| => s[i] as int)
  }

  const GitDir: Name := Ascii(".git")
  const Slash: Name := Ascii("/")
  const Newline: seq<Byte> := Ascii("\n")

  /** Path components joined with `/`. */
  function JoinSlash(cs: seq<Name>): Name {
    if |cs| == 0 then []
    else if |cs| == 1 then cs[0]
    else cs[0] + Slash + JoinSlash(cs[1..])
  }

  /** `filepath.Rel(root, path)` for the entry reached by components `cs`. */
  function RelPath(cs: seq<Name>): (rel: Name)
    ensures |cs| == 0 ==> rel == Ascii(".")
    ensures |cs| == 1 ==> rel == cs[0]
  {
    if |cs| == 0 then Ascii(".") else JoinSlash(cs)
  }

  /** The `path` WalkDir passes for the entry reached by components `cs`. */
  function FullPath(root: Name, cs: seq<Name>): (path: Name)
    ensures |cs| == 0 ==> path == root
    ensures root == Ascii(".") && |cs| > 0 ==> path == RelPath(cs)
  {
    if |cs| == 0 then root
    else if root == Ascii(".") then JoinSlash(cs)
    else if |root| > 0 && root[|root| - 1] == Slash[0] then root + JoinSlash(cs)
    else root + Slash + JoinSlash(cs)
  }

  /** The diagnostic line `Error accessing <path>: <err>`. */
  function AccessError(path: Name, err: seq<Byte>): seq<Byte> {
    Ascii("Error accessing ") + path + Ascii(": ") + err + Newline
  }

  /** A record's header line, `==<rel>==`. */
  function Header(rel: Name): seq<Byte> {
    Ascii("==") + rel + Ascii("==") + Newline
  }

  /** A record: the header, the whole contents, and the newline of `fmt.Println`. */
  function Record(rel: Name, contents: seq<Byte>): seq<Byte> {
    Header(rel) + contents + Newline
  }

  /** The line printed in place of the contents when the file cannot be reopened. */
  function OpenError(err: seq<Byte>): seq<Byte> {
    Ascii("  [error opening file: ") + err + Ascii("]") + Newline
  }

  /** An absent rule set ignores nothing. */
  predicate Ignored(rules: Option<Matcher>, rel: Name) {
    rules.Some? && rules.value(rel)
  }

  // ---------------------------------------------------------------------
  // The WalkDir callback.
  // ---------------------------------------------------------------------

  /** What WalkDir hands the callback: an access error, a directory or a file. */
  datatype Visit =
    | VisitError(path: Name, err: seq<Byte>)
    | VisitDir(dirName: Name)
    | VisitFile(rel: Name, file: Entry)

  /** What one call of the callback prints, and whether it returns `SkipDir`. */
  datatype Reply = Reply(out: seq<Byte>, diag: seq<seq<Byte>>, skipDir: bool)

  /** The callback of `filepath.WalkDir` in `main`. */
  function Callback(v: Visit, rules: Option<Matcher>): (r: Reply)
    requires v.VisitFile? ==> v.file.File?
    ensures r.skipDir <==> v.VisitDir? && v.dirName == GitDir
    ensures r.diag == if v.VisitError? then [AccessError(v.path, v.err)] else []
    ensures r.out != [] <==>
      v.VisitFile? && !Ignored(rules, v.rel)
      && IsTextFileSpec(v.file.contents, v.file.sniffOpen, v.file.sniffRead)
  {
    match v
    case VisitError(path, err) => Reply([], [AccessError(path, err)], false)
    case VisitDir(name) => Reply([], [], name == GitDir)
    case VisitFile(rel, f) =>
      if Ignored(rules, rel) then Reply([], [], false)
      else if !IsTextFileSpec(f.contents, f.sniffOpen, f.sniffRead) then Reply([], [], false)
      else
        var body := match f.copyOpen
          case Ok => Record(rel, f.contents)
          case Fail(err) => Header(rel) + OpenError(err);
        Reply(body, [], false)
  }

  // ---------------------------------------------------------------------
  // The walk: depth first, in pre-order, in listing order.
  // ---------------------------------------------------------------------

  /**
   WalkDir at the entry reached by components `cs`: one callback for the
   entry; for a directory that is not skipped, a second callback if its
   listing failed, then the walk of each child that was listed.
   */
  function WalkEntry(root: Name, cs: seq<Name>, e: Entry, rules: Option<Matcher>): (w: Output)
    ensures e.Dir? && e.name == GitDir ==> w == Output([], [])
    ensures e.File? ==> w.stderr == []
    decreases e
  {
    match e
    case File(_, _, _, _, _) =>
      var r := Callback(VisitFile(RelPath(cs), e), rules);
      Output(r.out, r.diag)
    case Dir(name, children, listing) =>
      var r := Callback(VisitDir(name), rules);
      if r.skipDir then Output(r.out, r.diag)
      else if listing.Fail? then
        var r2 := Callback(VisitError(FullPath(root, cs), listing.err), rules);
        if r2.skipDir then Output(r.out + r2.out, r.diag + r2.diag)
        else
          var rest := WalkChildren(root, cs, children, rules);
          Output(r.out + r2.out + rest.stdout, r.diag + r2.diag + rest.stderr)
      else
        var rest := WalkChildren(root, cs, children, rules);
        Output(r.out + rest.stdout, r.diag + rest.stderr)
  }

  /** The walk of the children of the directory reached by `cs`, one after another. */
  function WalkChildren(root: Name, cs: seq<Name>, children: seq<Entry>, rules: Option<Matcher>): (w: Output)
    ensures (forall k :: 0 <= k < |children| ==> children[k].File?) ==> w.stderr == []
    decreases children
  {
    if |children| == 0 then Output([], [])
    else
      var first := WalkEntry(root, cs + [children[0].name], children[0], rules);
      var rest := WalkChildren(root, cs, children[1..], rules);
      Output(first.stdout + rest.stdout, first.stderr + rest.stderr)
  }

  /** `filepath.WalkDir(root, callback)`. */
  function Walk(root: Name, fs: Root, rules: Option<Matcher>): (w: Output)
    ensures fs.Missing? ==> w == Output([], [AccessError(root, fs.err)])
    ensures fs.Present? && fs.top.File? ==> w.stderr == []
  {
    match fs
    case Missing(err) =>
      var r := Callback(VisitError(root, err), rules);
      Output(r.out, r.diag)
    case Present(top) => WalkEntry(root, [], top, rules)
  }

  // ---------------------------------------------------------------------
  // A reference for the walk: the files it reaches, then their records.
  // ---------------------------------------------------------------------

  /** A file the walk reaches, with the components of its path below the root. */
  datatype Item = Item(path: seq<Name>, file: Entry)

  /** The files under `e` in pre-order, nothing below a directory named `.git`. */
  function Files(cs: seq<Name>, e: Entry): (items: seq<Item>)
    ensures forall k :: 0 <= k < |items| ==> items[k].file.File?
    decreases e
  {
    match e
    case File(_, _, _, _, _) => [Item(cs, e)]
    case Dir(name, children, _) => if name == GitDir then [] else FilesOf(cs, children)
  }

  function FilesOf(cs: seq<Name>, children: seq<Entry>): (items: seq<Item>)
    ensures forall k :: 0 <= k < |items| ==> items[k].file.File?
    decreases children
  {
    if |children| == 0 then []
    else Files(cs + [children[0].name], children[0]) + FilesOf(cs, children[1..])
  }

  /** The failed directory listings under `e` in pre-order, as diagnostic lines. */
  function Failures(root: Name, cs: seq<Name>, e: Entry): seq<seq<Byte>>
    decreases e
  {
    match e
    case File(_, _, _, _, _) => []
    case Dir(name, children, listing) =>
      if name == GitDir then []
      else
        (if listing.Fail? then [AccessError(FullPath(root, cs), listing.err)] else [])
        + FailuresOf(root, cs, children)
  }

  function FailuresOf(root: Name, cs: seq<Name>, children: seq<Entry>): seq<seq<Byte>>
    decreases children
  {
    if |children| == 0 then []
    else Failures(root, cs + [children[0].name], children[0]) + FailuresOf(root, cs, children[1..])
  }

  /** What the callback prints for each of `items`, one after another. */
  function Emit(items: seq<Item>, rules: Option<Matcher>): seq<Byte>
    requires forall k :: 0 <= k < |items| ==> items[k].file.File?
  {
    if |items| == 0 then []
    else Callback(VisitFile(RelPath(items[0].path), items[0].file), rules).out + Emit(items[1..], rules)
  }

  lemma {:induction false} EmitAppend(a: seq<Item>, b: seq<Item>, rules: Option<Matcher>)
    requires forall k :: 0 <= k < |a| ==> a[k].file.File?
    requires forall k :: 0 <= k < |b| ==> b[k].file.File?
    ensures Emit(a + b, rules) == Emit(a, rules) + Emit(b, rules)
  {
    if |a| == 0 {
      assert a + b == b;
    } else {
      assert (a + b)[0] == a[0];
      assert (a + b)[1..] == a[1..] + b;
      EmitAppend(a[1..], b, rules);
    }
  }

  /**
   The walk writes exactly the records of the files it reaches, in order,
   and one diagnostic per failed listing; a failed listing does not stop
   the walk of the entries that were listed.
   */
  lemma {:induction false} WalkIsFilter(root: Name, cs: seq<Name>, e: Entry, rules: Option<Matcher>)
    ensures WalkEntry(root, cs, e, rules) == Output(Emit(Files(cs, e), rules), Failures(root, cs, e))
    decreases e, 1
  {
    if e.File? {
      FileIsFilter(root, cs, e, rules);
    } else if e.name == GitDir {
    } else {
      WalkChildrenIsFilter(root, cs, e.children, rules);
      DirIsFilter(root, cs, e, rules);
    }
  }

  lemma FileIsFilter(root: Name, cs: seq<Name>, e: Entry, rules: Option<Matcher>)
    requires e.File?
    ensures WalkEntry(root, cs, e, rules) == Output(Emit(Files(cs, e), rules), Failures(root, cs, e))
  {
    var items := [Item(cs, e)];
    assert Files(cs, e) == items;
    assert items[1..] == [];
    assert Emit(items, rules) == Callback(VisitFile(RelPath(cs), e), rules).out + Emit([], rules);
  }

  lemma DirIsFilter(root: Name, cs: seq<Name>, e: Entry, rules: Option<Matcher>)
    requires e.Dir? && e.name != GitDir
    requires WalkChildren(root, cs, e.children, rules)
          == Output(Emit(FilesOf(cs, e.children), rules), FailuresOf(root, cs, e.children))
    ensures WalkEntry(root, cs, e, rules) == Output(Emit(Files(cs, e), rules), Failures(root, cs, e))
  {
    assert Callback(VisitDir(e.name), rules) == Reply([], [], false);
    assert Files(cs, e) == FilesOf(cs, e.children);
    if e.listing.Fail? {
      FailedDirIsFilter(root, cs, e, rules);
    } else {
      assert Failures(root, cs, e) == [] + FailuresOf(root, cs, e.children);
    }
  }

  lemma FailedDirIsFilter(root: Name, cs: seq<Name>, e: Entry, rules: Option<Matcher>)
    requires e.Dir? && e.name != GitDir && e.listing.Fail?
    requires WalkChildren(root, cs, e.children, rules)
          == Output(Emit(FilesOf(cs, e.children), rules), FailuresOf(root, cs, e.children))
    ensures WalkEntry(root, cs, e, rules) == Output(Emit(Files(cs, e), rules), Failures(root, cs, e))
  {
    var line := AccessError(FullPath(root, cs), e.listing.err);
    var errs := FailuresOf(root, cs, e.children);
    var diag := Callback(VisitError(FullPath(root, cs), e.listing.err), rules).diag;
    assert Callback(VisitDir(e.name), rules) == Reply([], [], false);
    assert diag == [line];
    assert Files(cs, e) == FilesOf(cs, e.children);
    assert Failures(root, cs, e) == [line] + errs;
    var w := WalkEntry(root, cs, e, rules);
    assert w.stderr == [] + diag + errs;
    assert [] + diag == [line];
  }

  lemma {:induction false} WalkChildrenIsFilter(root: Name, cs: seq<Name>, children: seq<Entry>, rules: Option<Matcher>)
    ensures WalkChildren(root, cs, children, rules)
         == Output(Emit(FilesOf(cs, children), rules), FailuresOf(root, cs, children))
    decreases children, 0
  {
    if |children| > 0 {
      var c := children[0];
      WalkIsFilter(root, cs + [c.name], c, rules);
      WalkChildrenIsFilter(root, cs, children[1..], rules);
      EmitAppend(Files(cs + [c.name], c), FilesOf(cs, children[1..]), rules);
    }
  }

  /** No directory on the path is named `.git` (the last component, a file, may be). */
  predicate NotUnderGit(path: seq<Name>) {
    forall j :: 0 <= j < |path| - 1 ==> path[j] != GitDir
  }

  lemma {:induction false} FilesAvoidGit(cs: seq<Name>, e: Entry)
    requires NotUnderGit(cs)
    requires |cs| > 0 ==> cs[|cs| - 1] == e.name
    ensures forall k :: 0 <= k < |Files(cs, e)| ==> NotUnderGit(Files(cs, e)[k].path)
    decreases e
  {
    match e
    case File(_, _, _, _, _) =>
    case Dir(name, children, _) =>
      if name != GitDir {
        FilesOfAvoidGit(cs, children);
      }
  }

  lemma {:induction false} FilesOfAvoidGit(cs: seq<Name>, children: seq<Entry>)
    requires forall j :: 0 <= j < |cs| ==> cs[j] != GitDir
    ensures forall k :: 0 <= k < |FilesOf(cs, children)| ==> NotUnderGit(FilesOf(cs, children)[k].path)
    decreases children
  {
    if |children| > 0 {
      var c := children[0];
      FilesAvoidGit(cs + [c.name], c);
      FilesOfAvoidGit(cs, children[1..]);
    }
  }

  /**
   What reaches standard output is the records of files none of whose
   directories is named `.git`; a root directory named `.git` yields nothing.
   */
  lemma NothingUnderGitIsEmitted(root: Name, top: Entry, rules: Option<Matcher>)
    ensures Walk(root, Present(top), rules).stdout == Emit(Files([], top), rules)
    ensures forall k :: 0 <= k < |Files([], top)| ==> NotUnderGit(Files([], top)[k].path)
    ensures top.Dir? && top.name == GitDir ==> Walk(root, Present(top), rules) == Output([], [])
  {
    WalkIsFilter(root, [], top, rules);
    FilesAvoidGit([], top);
  }

  /**
   A record is the header `==<rel>==`, then the whole contents and a
   newline, or, when the file cannot be reopened, the header and an error
   line with no extra newline.
   */
  lemma RecordLayout(rel: Name, f: Entry, rules: Option<Matcher>)
    requires f.File? && !Ignored(rules, rel) && IsTextFileSpec(f.contents, f.sniffOpen, f.sniffRead)
    ensures f.copyOpen.Ok? ==> Callback(VisitFile(rel, f), rules).out == Record(rel, f.contents)
    ensures f.copyOpen.Fail? ==> Callback(VisitFile(rel, f), rules).out == Header(rel) + OpenError(f.copyOpen.err)
  {
  }

  /** Standard error holds one line per access error: the root's, or each failed listing's. */
  lemma DiagnosticsAreAccessErrors(root: Name, fs: Root, rules: Option<Matcher>)
    ensures Walk(root, fs, rules).stderr
         == if fs.Missing? then [AccessError(root, fs.err)] else Failures(root, [], fs.top)
  {
    if fs.Present? {
      WalkIsFilter(root, [], fs.top, rules);
    }
  }

  /** The same tree with every directory listed without error. */
  function Healed(e: Entry): (h: Entry)
    ensures h.name == e.name && h.Dir? == e.Dir?
    decreases e
  {
    match e
    case File(_, _, _, _, _) => e
    case Dir(name, children, _) => Dir(name, HealedAll(children), Ok)
  }

  function HealedAll(children: seq<Entry>): (hs: seq<Entry>)
    ensures |hs| == |children|
    decreases children
  {
    if |children| == 0 then [] else [Healed(children[0])] + HealedAll(children[1..])
  }

  lemma {:induction false} FilesHealed(cs: seq<Name>, e: Entry)
    ensures Files(cs, Healed(e)) == Files(cs, e)
    decreases e
  {
    match e
    case File(_, _, _, _, _) =>
    case Dir(name, children, _) =>
      FilesOfHealed(cs, children);
  }

  lemma {:induction false} FilesOfHealed(cs: seq<Name>, children: seq<Entry>)
    ensures FilesOf(cs, HealedAll(children)) == FilesOf(cs, children)
    decreases children
  {
    if |children| > 0 {
      var hs := HealedAll(children);
      assert hs[0] == Healed(children[0]) && hs[1..] == HealedAll(children[1..]);
      FilesHealed(cs + [children[0].name], children[0]);
      FilesOfHealed(cs, children[1..]);
    }
  }

  /**
   A directory whose listing fails does not stop the walk: standard output
   is what it would be had every listing succeeded, so every entry that
   was listed is still visited.
   */
  lemma ListingErrorsKeepOutput(root: Name, top: Entry, rules: Option<Matcher>)
    ensures Walk(root, Present(top), rules).stdout == Walk(root, Present(Healed(top)), rules).stdout
  {
    WalkIsFilter(root, [], top, rules);
    WalkIsFilter(root, [], Healed(top), rules);
    FilesHealed([], top);
  }

  // ---------------------------------------------------------------------
  // Worked scenarios.
  // ---------------------------------------------------------------------

  /** A root `.` holding `a.txt` with `hello\n` and no rules prints one record. */
  lemma HelloScenario(name: Name, contents: seq<Byte>)
    requires name == Ascii("a.txt") && contents == Ascii("hello\n")
    ensures Walk(Ascii("."), Present(Dir(Ascii("."), [File(name, contents, Ok, Ok, Ok)], Ok)), None)
         == Output(Ascii("==a.txt==\nhello\n\n"), [])
  {
    var f := File(name, contents, Ok, Ok, Ok);
    HelloIsText();
    RecordLayout(name, f, None);
    HelloBytes();
    SingleFile(Ascii("."), Ascii("."), f, None);
  }

  lemma HelloIsText()
    ensures IsTextFileSpec(Ascii("hello\n"), Ok, Ok)
  {
    PrintableAsciiIsText(Ascii("hello\n"));
  }

  lemma HelloBytes()
    ensures RelPath([Ascii("a.txt")]) == Ascii("a.txt")
    ensures Record(Ascii("a.txt"), Ascii("hello\n")) == Ascii("==a.txt==\nhello\n\n")
  {
  }

  /** A directory holding one file and listed without error prints that file's record. */
  lemma SingleFile(root: Name, dirName: Name, f: Entry, rules: Option<Matcher>)
    requires f.File? && dirName != GitDir
    ensures Walk(root, Present(Dir(dirName, [f], Ok)), rules)
         == Output(Callback(VisitFile(RelPath([f.name]), f), rules).out, [])
  {
    var top := Dir(dirName, [f], Ok);
    WalkIsFilter(root, [], top, rules);
    assert [f][1..] == [] && [] + [f.name] == [f.name];
    assert Files([], top) == FilesOf([], [f]) == [Item([f.name], f)] + [];
    assert Failures(root, [], top) == [] + FailuresOf(root, [], [f]) == [] + [];
  }

  /** The records of files listed directly in one directory, in listing order. */
  function Items(fs: seq<Entry>): (items: seq<Item>)
    ensures |items| == |fs|
    ensures forall k :: 0 <= k < |fs| ==> items[k] == Item([fs[k].name], fs[k])
  {
    if |fs| == 0 then [] else [Item([fs[0].name], fs[0])] + Items(fs[1..])
  }

  lemma {:induction false} FlatFiles(fs: seq<Entry>)
    requires forall k :: 0 <= k < |fs| ==> fs[k].File?
    ensures FilesOf([], fs) == Items(fs)
  {
    if |fs| > 0 {
      assert [] + [fs[0].name] == [fs[0].name];
      FlatFiles(fs[1..]);
    }
  }

  lemma {:induction false} FilesFailNothing(root: Name, cs: seq<Name>, fs: seq<Entry>)
    requires forall k :: 0 <= k < |fs| ==> fs[k].File?
    ensures FailuresOf(root, cs, fs) == []
  {
    if |fs| > 0 {
      FilesFailNothing(root, cs, fs[1..]);
    }
  }

  /** The stdout a file listed directly under the root gives. */
  function TopOut(f: Entry, rules: Option<Matcher>): seq<Byte>
    requires f.File?
  {
    Callback(VisitFile(f.name, f), rules).out
  }

  /** A root directory of files, listed without error, prints their records in order. */
  lemma {:induction false} FlatWalk(root: Name, dirName: Name, fs: seq<Entry>, rules: Option<Matcher>)
    requires dirName != GitDir
    requires forall k :: 0 <= k < |fs| ==> fs[k].File?
    ensures Walk(root, Present(Dir(dirName, fs, Ok)), rules) == Output(Emit(Items(fs), rules), [])
  {
    var top := Dir(dirName, fs, Ok);
    WalkIsFilter(root, [], top, rules);
    FlatFiles(fs);
    FilesFailNothing(root, [], fs);
    assert Failures(root, [], top) == [] + [];
  }

  lemma {:induction false} EmitItems(fs: seq<Entry>, rules: Option<Matcher>)
    requires |fs| > 0 && forall k :: 0 <= k < |fs| ==> fs[k].File?
    ensures Emit(Items(fs), rules) == TopOut(fs[0], rules) + Emit(Items(fs[1..]), rules)
  {
    assert Items(fs)[1..] == Items(fs[1..]);
    assert RelPath([fs[0].name]) == fs[0].name;
  }

  lemma Text(s: string)
    requires |s| < SniffLen
    requires forall i :: 0 <= i < |s| ==> 32 <= s[i] as int < 0x80 || s[i] == '\n'
    ensures IsTextFileSpec(Ascii(s), Ok, Ok)
  {
    PrintableAsciiIsText(Ascii(s));
  }

  lemma DotIsNotGit()
    ensures Ascii(".") != GitDir
  {
    assert |Ascii(".")| != |GitDir|;
  }

  /** Three files where the rules match the last: records for the first two. */
  lemma IgnoreLast(root: Name, dirName: Name, f1: Entry, f2: Entry, f3: Entry, m: Matcher)
    requires dirName != GitDir && f1.File? && f2.File? && f3.File?
    requires !m(f1.name) && !m(f2.name) && m(f3.name)
    requires IsTextFileSpec(f1.contents, f1.sniffOpen, f1.sniffRead) && f1.copyOpen.Ok?
    requires IsTextFileSpec(f2.contents, f2.sniffOpen, f2.sniffRead) && f2.copyOpen.Ok?
    ensures Walk(root, Present(Dir(dirName, [f1, f2, f3], Ok)), Some(m))
         == Output(Record(f1.name, f1.contents) + Record(f2.name, f2.contents), [])
  {
    var fs := [f1, f2, f3];
    RecordLayout(f1.name, f1, Some(m));
    RecordLayout(f2.name, f2, Some(m));
    FlatWalk(root, dirName, fs, Some(m));
    EmitItems(fs, Some(m));
    assert fs[1..] == [f2, f3] && fs[1..][1..] == [f3] && fs[1..][1..][1..] == [];
    EmitItems(fs[1..], Some(m));
    EmitItems(fs[1..][1..], Some(m));
    assert TopOut(f3, Some(m)) == [];
    assert Emit(Items(fs[1..][1..][1..]), Some(m)) == [];
  }

  /**
   With a rule that matches `secret.txt` only, the root's `.gitignore`,
   `a.txt` and `secret.txt` give records for `.gitignore` and `a.txt`: the
   rule file is itself a text file that no rule matches.
   */
  lemma IgnoreScenario(gi: Name, a: Name, secret: Name, rulesText: seq<Byte>,
                       hello: seq<Byte>, hidden: seq<Byte>, m: Matcher)
    requires gi == Ascii(".gitignore") && a == Ascii("a.txt") && secret == Ascii("secret.txt")
    requires rulesText == Ascii("secret.txt\n") && hello == Ascii("hello\n") && hidden == Ascii("hidden\n")
    requires m(secret) && !m(gi) && !m(a)
    ensures Walk(Ascii("."), Present(Dir(Ascii("."), [File(gi, rulesText, Ok, Ok, Ok),
                                                     File(a, hello, Ok, Ok, Ok),
                                                     File(secret, hidden, Ok, Ok, Ok)], Ok)), Some(m))
         == Output(Record(gi, rulesText) + Record(a, hello), [])
  {
    Text("secret.txt\n");
    Text("hello\n");
    DotIsNotGit();
    IgnoreLast(Ascii("."), Ascii("."), File(gi, rulesText, Ok, Ok, Ok),
               File(a, hello, Ok, Ok, Ok), File(secret, hidden, Ok, Ok, Ok), m);
  }

  /** The files and failed listings reached under a root holding `f`, `d`, `g`. */
  lemma UnreadableReach(root: Name, dirName: Name, f: Entry, d: Entry, g: Entry)
    requires dirName != GitDir
    requires f.File? && g.File?
    requires d.Dir? && d.name != GitDir && d.children == [] && d.listing.Fail?
    ensures Files([], Dir(dirName, [f, d, g], Ok)) == Items([f, g])
    ensures Failures(root, [], Dir(dirName, [f, d, g], Ok))
         == [AccessError(FullPath(root, [d.name]), d.listing.err)]
  {
    var children := [f, d, g];
    var line := AccessError(FullPath(root, [d.name]), d.listing.err);
    assert children[1..] == [d, g] && children[1..][1..] == [g];
    assert [] + [f.name] == [f.name] && [] + [d.name] == [d.name];
    FlatFiles([g]);
    FilesFailNothing(root, [], [g]);
    assert Files([d.name], d) == [];
    assert FilesOf([], [d, g]) == [] + FilesOf([], [g]);
    assert FilesOf([], children) == [Item([f.name], f)] + Items([g]);
    assert Items([f, g]) == [Item([f.name], f)] + Items([g]);
    assert Failures(root, [d.name], d) == [line] + [];
    assert FailuresOf(root, [], [d, g]) == [line] + [];
    assert FailuresOf(root, [], children) == [] + [line];
  }

  /** The record of a text file, then nothing for a file that cannot be opened. */
  lemma UnreadableEmit(f: Entry, g: Entry, rules: Option<Matcher>)
    requires f.File? && !Ignored(rules, f.name) && f.copyOpen.Ok?
    requires IsTextFileSpec(f.contents, f.sniffOpen, f.sniffRead)
    requires g.File? && g.sniffOpen.Fail?
    ensures Emit(Items([f, g]), rules) == Record(f.name, f.contents)
  {
    var files := [f, g];
    RecordLayout(f.name, f, rules);
    EmitItems(files, rules);
    assert files[1..] == [g];
    EmitItems([g], rules);
    assert [g][1..] == [];
    assert TopOut(g, rules) == [];
    assert Emit(Items([g]), rules) == [] + [];
    assert Emit(Items(files), rules) == Record(f.name, f.contents) + [];
  }

  /**
   A text file, an unreadable directory, then a file that cannot be
   opened: the text file's record, one diagnostic for the directory, and
   none for the file.
   */
  lemma SkipUnreadable(root: Name, dirName: Name, f: Entry, d: Entry, g: Entry, rules: Option<Matcher>)
    requires dirName != GitDir
    requires f.File? && !Ignored(rules, f.name) && f.copyOpen.Ok?
    requires IsTextFileSpec(f.contents, f.sniffOpen, f.sniffRead)
    requires d.Dir? && d.name != GitDir && d.children == [] && d.listing.Fail?
    requires g.File? && g.sniffOpen.Fail?
    ensures Walk(root, Present(Dir(dirName, [f, d, g], Ok)), rules)
         == Output(Record(f.name, f.contents), [AccessError(FullPath(root, [d.name]), d.listing.err)])
  {
    WalkIsFilter(root, [], Dir(dirName, [f, d, g], Ok), rules);
    UnreadableReach(root, dirName, f, d, g);
    UnreadableEmit(f, g, rules);
  }

  /**
   In a root holding `a.txt`, an unreadable directory `locked` and a file
   `x.txt` that cannot be opened, listed in the sorted order `os.ReadDir`
   gives, the walk prints `a.txt`, reports `locked` once on standard error
   and skips `x.txt` silently.
   */
  lemma UnreadableScenario(a: Name, locked: Name, x: Name, hello: seq<Byte>,
                           err: seq<Byte>, data: seq<Byte>, err2: seq<Byte>)
    requires a == Ascii("a.txt") && locked == Ascii("locked") && x == Ascii("x.txt")
    requires hello == Ascii("hello\n")
    ensures Walk(Ascii("."), Present(Dir(Ascii("."), [File(a, hello, Ok, Ok, Ok),
                                                     Dir(locked, [], Fail(err)),
                                                     File(x, data, Fail(err2), Ok, Ok)], Ok)), None)
         == Output(Record(a, hello), [AccessError(locked, err)])
  {
    Text("hello\n");
    DotIsNotGit();
    assert locked != GitDir;
    assert FullPath(Ascii("."), [locked]) == locked;
    SkipUnreadable(Ascii("."), Ascii("."), File(a, hello, Ok, Ok, Ok),
                   Dir(locked, [], Fail(err)), File(x, data, Fail(err2), Ok, Ok), None);
  }

  /** A regular file named `.git` is not pruned: it is classified like any other. */
  lemma GitFileIsKept(root: Name, dirName: Name, f: Entry, rules: Option<Matcher>)
    requires dirName != GitDir && f.File? && f.name == GitDir
    ensures Walk(root, Present(Dir(dirName, [f], Ok)), rules)
         == Output(Callback(VisitFile(GitDir, f), rules).out, [])
  {
    SingleFile(root, dirName, f, rules);
  }
}
