/**
 * `Gitstart::Application`: `run` checks its arguments and the target, clones the Subversion
 * repository with `git svn`, installs its `svn:externals` as clones kept under `.externals`
 * and linked into place, and creates the `working` branch.
 *
 * Each step is given twice: as a function from the world before to the world after (the
 * file system and the UI state), and as a method that changes a `FileSystem` and a `UI` in
 * place, step by step, and is proved to end in the state the function describes. A step
 * that raises leaves the world as it was at the raise and reports the failure.
 */
module Application {
  import opened Wrappers
  import opened RubyText
  import opened ApplicationText
  import opened Console
  import opened Host

  const Branch: String := "working"
  const ExternalsDir: String := ".externals"
  const Usage: String := "Usage: gitstart <svn-repository> <target-dir>"

  /** Everything a step can change. */
  datatype World = World(fs: Fs, ui: UiState)

  /** The exceptions that end a run: a NoMethodError on nil while reading the revision of
      `repo`, or while reading its externals listing; or the Errno::ENOENT that
      `File.symlink(source, "")` raises for an entry with an empty name. */
  datatype Failure =
    | RevisionFailure(repo: String, revisionError: RevisionError)
    | ExternalsFailure(repo: String, externalsError: ExternalsError)
    | SymlinkFailure(source: String)

  /** The world after a step, and the failure it raised, if any. */
  datatype Effect = Effect(w: World, raised: Option<Failure>)

  /** How `run` ends: normally, by `exit`, or by an exception. */
  datatype Outcome = Completed | Exited(status: int) | Raised(failure: Failure)

  datatype Finish = Finish(w: World, outcome: Outcome)

  /** One `[ext_dir, ext_repo]` entry of the externals of directory `dir`. */
  datatype Mount = Mount(dir: String, name: String, repo: String)

  function Say(w: World, msg: String): World {
    w.(ui := Put(w.ui, [msg]))
  }

  // The progress messages, each defined once.

  const IgnoringMessage: String := "setting ignored files from subversion (this can take a while)"

  function RevisionMessage(repo: String): String {
    "finding latest revision of " + repo
  }

  function CreatingMessage(target: String): String {
    "creating git repository in " + target
  }

  function EmptyDirMessage(dir: String): String {
    "making empty directory: " + dir
  }

  function ExternalsMessage(repo: String): String {
    "checking for svn:externals to install from " + repo
  }

  function SymlinkMessage(m: Mount, target: String): String {
    "symlinking " + m.name + " into " + target + "/" + m.dir
  }

  function BranchMessage(target: String): String {
    "creating '" + Branch + "' branch on " + target
  }

  // ---------------------------------------------------------------- ignore_generated_files

  /** What `ignore_generated_files` appends to the exclude file of the repository at `at`:
      the ignore list `git svn show-ignore` prints there, an empty line, a comment and
      `.gitignore`. */
  function IgnoreLines(sh: Shell, at: String): seq<String> {
    [sh.showIgnore(at), "", "# Git files", ".gitignore"]
  }

  function IgnoreGeneratedFilesSpec(sh: Shell, w: World, at: String): World {
    var w1 := Say(w, IgnoringMessage);
    w1.(fs := WithExclude(w1.fs, at, IgnoreLines(sh, at)))
  }

  // ---------------------------------------------------------------- clone_repository

  /** The location of each directory the clone reported empty, under the clone at `at`. */
  function DirPaths(at: String, dirs: seq<String>): set<String> {
    set d | d in dirs :: PathJoin(at, d)
  }

  /** The message of each directory, in order. */
  function DirMessages(dirs: seq<String>): (r: seq<String>)
    ensures |r| == |dirs|
    ensures forall i | 0 <= i < |dirs| :: r[i] == EmptyDirMessage(dirs[i])
  {
    if dirs == [] then []
    else DirMessages(dirs[..|dirs| - 1]) + [EmptyDirMessage(dirs[|dirs| - 1])]
  }

  /** The loop of `clone_repository` over the empty directories: one directory created under
      the clone per entry, one message per entry in order, and nothing else changes. */
  function MakeEmptyDirs(w: World, at: String, dirs: seq<String>): (r: World)
    ensures r.fs == w.fs.(paths := w.fs.paths + DirPaths(at, dirs))
    ensures r.ui == w.ui.(written := r.ui.written)
    ensures r.ui.written == w.ui.written +
      (if w.ui.hasIo then Prefixed(Tabs(w.ui.level), DirMessages(dirs)) else [])
  {
    if dirs == [] then w
    else
      var w1 := MakeEmptyDirs(w, at, dirs[..|dirs| - 1]);
      var d := dirs[|dirs| - 1];
      var r := World(WithPath(w1.fs, PathJoin(at, d)), Put(w1.ui, [EmptyDirMessage(d)]));
      MakeEmptyDirsStep(w, at, dirs, w1, r);
      r
  }

  /** What `MakeEmptyDirs` promises, as one predicate for the step below. */
  ghost predicate MadeEmptyDirs(w: World, at: String, dirs: seq<String>, r: World) {
    && r.fs == w.fs.(paths := w.fs.paths + DirPaths(at, dirs))
    && r.ui == w.ui.(written := r.ui.written)
    && r.ui.written == w.ui.written +
      (if w.ui.hasIo then Prefixed(Tabs(w.ui.level), DirMessages(dirs)) else [])
  }

  /** One more directory keeps the promise of `MakeEmptyDirs`. */
  lemma {:induction false} MakeEmptyDirsStep(w: World, at: String, dirs: seq<String>, w1: World, r: World)
    requires dirs != []
    requires MadeEmptyDirs(w, at, dirs[..|dirs| - 1], w1)
    requires r == World(WithPath(w1.fs, PathJoin(at, dirs[|dirs| - 1])),
      Put(w1.ui, [EmptyDirMessage(dirs[|dirs| - 1])]))
    ensures MadeEmptyDirs(w, at, dirs, r)
  {
    DirPathsStep(w.fs, at, dirs, w1.fs, r.fs);
    DirMessagesStep(w.ui, dirs, w1.ui, r.ui);
  }

  lemma {:induction false} DirPathsStep(fs: Fs, at: String, dirs: seq<String>, fs1: Fs, fs2: Fs)
    requires dirs != []
    requires fs1 == fs.(paths := fs.paths + DirPaths(at, dirs[..|dirs| - 1]))
    requires fs2 == WithPath(fs1, PathJoin(at, dirs[|dirs| - 1]))
    ensures fs2 == fs.(paths := fs.paths + DirPaths(at, dirs))
  {
    DirPathsLast(at, dirs);
    assert fs.paths + DirPaths(at, dirs) == fs1.paths + {PathJoin(at, dirs[|dirs| - 1])};
  }

  lemma {:induction false} DirMessagesStep(u: UiState, dirs: seq<String>, u1: UiState, u2: UiState)
    requires dirs != []
    requires u1 == u.(written := u1.written)
    requires u1.written == u.written +
      (if u.hasIo then Prefixed(Tabs(u.level), DirMessages(dirs[..|dirs| - 1])) else [])
    requires u2 == Put(u1, [EmptyDirMessage(dirs[|dirs| - 1])])
    ensures u2 == u.(written := u2.written)
    ensures u.hasIo ==> u2.written == u.written + Prefixed(Tabs(u.level), DirMessages(dirs))
    ensures !u.hasIo ==> u2.written == u.written
  {
    var m := EmptyDirMessage(dirs[|dirs| - 1]);
    if u.hasIo {
      PutAfterPrefixed(u1, u.written, DirMessages(dirs[..|dirs| - 1]), m);
      assert DirMessages(dirs) == DirMessages(dirs[..|dirs| - 1]) + [m];
    } else {
      assert u2.written == u1.written + [];
      ConcatEmpty(u1.written);
      ConcatEmpty(u.written);
    }
  }

  lemma {:induction false} ConcatEmpty<T>(a: seq<T>)
    ensures a + [] == a
  {
  }

  lemma {:induction false} DirPathsLast(at: String, dirs: seq<String>)
    requires dirs != []
    ensures DirPaths(at, dirs) == DirPaths(at, dirs[..|dirs| - 1]) + {PathJoin(at, dirs[|dirs| - 1])}
  {
    assert dirs == dirs[..|dirs| - 1] + [dirs[|dirs| - 1]];
  }

  /** `clone_repository(repo, target)` run from where `target` names the location `at`. */
  function CloneRepositorySpec(sh: Shell, w: World, repo: String, target: String, at: String)
    : Effect
  {
    var w1 := Say(w, RevisionMessage(repo));
    match LatestRevision(sh.svnLog(repo))
    case Failure(why) => Effect(w1, Some(RevisionFailure(repo, why)))
    case Success(revision) =>
      var w2 := Say(w1, CreatingMessage(target));
      var w3 := World(WithClone(w2.fs, CloneCall(repo, target, revision, at)), Indented(w2.ui));
      var w4 := MakeEmptyDirs(w3, at, EmptyDirs(sh.gitSvnClone(repo, target, revision)));
      var w5 := IgnoreGeneratedFilesSpec(sh, w4, at);
      Effect(w5.(ui := Unindented(w5.ui)), None)
  }

  /** `clone_repository` leaves the indentation as it found it and only adds output; it
      touches no link, no checkout and no other repository's exclude file, and removes no
      path. It raises exactly when the revision cannot be read, and then before anything
      but its first message. */
  lemma {:induction false} CloneRepositoryFrame(sh: Shell, w: World, repo: String, target: String, at: String)
    ensures var r := CloneRepositorySpec(sh, w, repo, target, at);
      && r.w.ui == w.ui.(written := r.w.ui.written)
      && w.ui.written <= r.w.ui.written
      && r.w.fs.links == w.fs.links
      && r.w.fs.checkouts == w.fs.checkouts
      && w.fs.paths <= r.w.fs.paths
      && w.fs.clones <= r.w.fs.clones
      && (forall k | k != at :: ExcludeOf(r.w.fs.exclude, k) == ExcludeOf(w.fs.exclude, k))
    ensures var r := CloneRepositorySpec(sh, w, repo, target, at);
      && (r.raised.Some? <==> LatestRevision(sh.svnLog(repo)).Failure?)
      && (r.raised.Some? ==>
            r.w.fs == w.fs && r.raised.value == RevisionFailure(repo, LatestRevision(sh.svnLog(repo)).error))
  {
    var w1 := Say(w, RevisionMessage(repo));
    match LatestRevision(sh.svnLog(repo))
    case Failure(why) =>
      assert CloneRepositorySpec(sh, w, repo, target, at) == Effect(w1, Some(RevisionFailure(repo, why)));
    case Success(revision) =>
      var w2 := Say(w1, CreatingMessage(target));
      var w3 := World(WithClone(w2.fs, CloneCall(repo, target, revision, at)), Indented(w2.ui));
      var w4 := MakeEmptyDirs(w3, at, EmptyDirs(sh.gitSvnClone(repo, target, revision)));
      var w5 := IgnoreGeneratedFilesSpec(sh, w4, at);
      assert CloneRepositorySpec(sh, w, repo, target, at) == Effect(w5.(ui := Unindented(w5.ui)), None);
      assert w.ui.written <= w1.ui.written <= w2.ui.written <= w4.ui.written <= w5.ui.written;
      assert w5.ui.level == w.ui.level + 1;
  }

  /** A successful `clone_repository` logs one `git svn clone` of `repo` into `target` at the
      latest revision, creates the clone and each empty directory it reported, and appends
      the ignore lines to the clone's exclude file. */
  lemma {:induction false} CloneRepositoryDone(sh: Shell, w: World, repo: String, target: String, at: String, revision: String)
    requires LatestRevision(sh.svnLog(repo)) == Success(revision)
    ensures var r := CloneRepositorySpec(sh, w, repo, target, at);
      && r.raised == None
      && r.w.fs.clones == w.fs.clones + [CloneCall(repo, target, revision, at)]
      && r.w.fs.paths == w.fs.paths + {at} + DirPaths(at, EmptyDirs(sh.gitSvnClone(repo, target, revision)))
      && ExcludeOf(r.w.fs.exclude, at) == ExcludeOf(w.fs.exclude, at) + IgnoreLines(sh, at)
  {
  }

  // ---------------------------------------------------------------- clone_externals

  /** `repos.each do |ext_dir, ext_repo|` on one entry: a missing part is nil, which both
      the path and the messages use as the empty text. */
  function MountOf(dir: String, entry: seq<String>): Mount {
    Mount(dir, if |entry| > 0 then entry[0] else "", if |entry| > 1 then entry[1] else "")
  }

  /** The entries of one external directory, in listing order. */
  function EntriesOf(x: External): (r: seq<Mount>)
    ensures |r| == |x.repos|
    ensures forall i | 0 <= i < |r| :: r[i] == MountOf(x.dir, x.repos[i])
  {
    seq(|x.repos|, i requires 0 <= i < |x.repos| => MountOf(x.dir, x.repos[i]))
  }

  /** The entries the two nested `each` loops visit, in visiting order. */
  function MountsOf(exts: seq<External>): seq<Mount> {
    if exts == [] then [] else MountsOf(exts[..|exts| - 1]) + EntriesOf(exts[|exts| - 1])
  }

  /** Where the clone of an external named `name` lives: `.externals/<name>` under the
      target. */
  function Storage(target: String, name: String): String {
    PathJoin(PathJoin(target, ExternalsDir), name)
  }

  /** The symbolic link made for an entry: `<name>` inside the entry's directory. */
  function LinkPath(target: String, m: Mount): String {
    PathJoin(PathJoin(target, m.dir), m.name)
  }

  /** The exclude line of an entry. */
  function ExcludeEntry(m: Mount): String {
    PathJoin(m.dir, m.name)
  }

  /** The exclude lines of a sequence of entries, in order. */
  function ExcludeEntries(ms: seq<Mount>): (r: seq<String>)
    ensures |r| == |ms|
    ensures forall i | 0 <= i < |ms| :: r[i] == ExcludeEntry(ms[i])
  {
    if ms == [] then [] else ExcludeEntries(ms[..|ms| - 1]) + [ExcludeEntry(ms[|ms| - 1])]
  }

  /** The first half of one pass of the inner loop of `clone_externals`: clone the external
      into its storage unless something exists there. */
  function Fetch(sh: Shell, w: World, target: String, m: Mount): Effect {
    var storage := Storage(target, m.name);
    if Exists(w.fs, storage) then Effect(w, None)
    else CloneRepositorySpec(sh, w, m.repo, PathJoin(ExternalsDir, m.name), storage)
  }

  /** The directories that cloning an entry's external creates: its storage and the empty
      directories `git svn clone` reports in it, or none when the revision cannot be read. */
  function ClonedPaths(sh: Shell, target: String, m: Mount): set<String> {
    var storage := Storage(target, m.name);
    match LatestRevision(sh.svnLog(m.repo))
    case Failure(_) => {}
    case Success(revision) =>
      {storage} + DirPaths(storage, EmptyDirs(sh.gitSvnClone(m.repo, PathJoin(ExternalsDir, m.name), revision)))
  }

  /** One pass of the inner loop of `clone_externals`: clone the external unless its
      storage exists, then link it into its directory and exclude the link. A link with an
      empty name cannot be made: the symlink raises after its message. */
  function LinkOne(sh: Shell, w: World, target: String, m: Mount): Effect {
    var storage := Storage(target, m.name);
    var e := Fetch(sh, w, target, m);
    if e.raised.Some? then e
    else
      var w1 := Say(e.w, SymlinkMessage(m, target));
      if m.name == [] then Effect(w1, Some(SymlinkFailure(storage)))
      else
        var fs := WithExclude(WithLink(w1.fs, LinkPath(target, m), storage), target, [ExcludeEntry(m)]);
        Effect(w1.(fs := fs), None)
  }

  /** The nested loops of `clone_externals` over the entries `ms`; the first raise ends
      them. */
  function LinkAll(sh: Shell, w: World, target: String, ms: seq<Mount>): Effect {
    if ms == [] then Effect(w, None)
    else
      var e := LinkAll(sh, w, target, ms[..|ms| - 1]);
      if e.raised.Some? then e else LinkOne(sh, e.w, target, ms[|ms| - 1])
  }

  /** `clone_externals(repo, target)`, with `target` the location of the clone. */
  function CloneExternalsSpec(sh: Shell, w: World, repo: String, target: String): Effect {
    CloneListed(sh, w, repo, target, GetExternals(sh.svnExternals(repo), repo))
  }

  /** `clone_externals` with `listed` standing for what `get_externals` returns. */
  function CloneListed(sh: Shell, w: World, repo: String, target: String,
                       listed: Result<seq<External>, ExternalsError>): Effect {
    var w1 := Say(w, ExternalsMessage(repo));
    var w2 := w1.(ui := Indented(w1.ui));
    match listed
    case Failure(why) => Effect(w2, Some(ExternalsFailure(repo, why)))
    case Success(exts) =>
      var fs := WithExclude(WithPath(w2.fs, PathJoin(target, ExternalsDir)), target, [ExternalsDir]);
      var e := LinkAll(sh, w2.(fs := fs), target, MountsOf(exts));
      if e.raised.Some? then e else Effect(e.w.(ui := Unindented(e.w.ui)), None)
  }

  // ---------------------------------------------------------------- create_working_branch, run

  function CreateWorkingBranchSpec(w: World, target: String): World {
    var w1 := Say(w, BranchMessage(target));
    w1.(fs := WithCheckout(w1.fs, Checkout(target, Branch)))
  }

  function AlreadyExists(target: String): String {
    "Error: target " + target + " already exists - please move it!"
  }

  /** `run(args)`. */
  function RunSpec(sh: Shell, w: World, args: seq<String>): Finish {
    if |args| != 2 then Finish(Say(w, Usage), Exited(1))
    else
      var repo := args[0];
      var fullpath := sh.expandPath(args[1]);
      if Exists(w.fs, fullpath) then Finish(Say(w, AlreadyExists(fullpath)), Exited(1))
      else
        var e1 := CloneRepositorySpec(sh, w, repo, fullpath, fullpath);
        if e1.raised.Some? then Finish(e1.w, Raised(e1.raised.value))
        else
          var e2 := CloneExternalsSpec(sh, e1.w, repo, fullpath);
          if e2.raised.Some? then Finish(e2.w, Raised(e2.raised.value))
          else Finish(CreateWorkingBranchSpec(e2.w, fullpath), Completed)
  }

  // ---------------------------------------------------------------- what clone_externals does

  /** The storage of an external is below the target, never the target itself. */
  lemma {:induction false} StorageBelowTarget(target: String, name: String)
    ensures |Storage(target, name)| > |target|
    ensures Storage(target, name) != target
  {
  }

  /** One entry keeps the indentation, makes no checkout, removes no path and no link, and
      adds at most one clone. */
  lemma {:induction false} LinkOneFrame(sh: Shell, w: World, target: String, m: Mount)
    ensures var r := LinkOne(sh, w, target, m);
      && r.w.ui == w.ui.(written := r.w.ui.written)
      && w.ui.written <= r.w.ui.written
      && r.w.fs.checkouts == w.fs.checkouts
      && w.fs.paths <= r.w.fs.paths
      && w.fs.links.Keys <= r.w.fs.links.Keys
      && w.fs.clones <= r.w.fs.clones
      && |r.w.fs.clones| <= |w.fs.clones| + 1
  {
    var storage := Storage(target, m.name);
    var present := Exists(w.fs, storage);
    var e := Fetch(sh, w, target, m);
    if !present {
      CloneRepositoryFrame(sh, w, m.repo, PathJoin(ExternalsDir, m.name), storage);
    }
    if e.raised == None && m.name != [] {
      var w1 := Say(e.w, SymlinkMessage(m, target));
      var linked := WithLink(w1.fs, LinkPath(target, m), storage);
      assert linked.links == w1.fs.links[LinkSite(w1.fs, LinkPath(target, m), storage) := storage];
      assert LinkOne(sh, w, target, m) == Effect(w1.(fs := WithExclude(linked, target, [ExcludeEntry(m)])), None);
    } else if e.raised == None {
      assert LinkOne(sh, w, target, m) == Effect(Say(e.w, SymlinkMessage(m, target)), Some(SymlinkFailure(storage)));
    } else {
      assert LinkOne(sh, w, target, m) == e;
    }
  }

  /** One entry clones its external only when the storage is missing, and then by
      `clone_repository` alone: one `git svn clone` into the storage, which exists
      afterwards, exactly the directories that clone creates, and the ignore lines in the
      storage's exclude file. An entry that clones nothing creates nothing. With the storage
      present it clones nothing, and it raises exactly when its name is empty. */
  lemma {:induction false} LinkOneClones(sh: Shell, w: World, target: String, m: Mount)
    ensures var r := LinkOne(sh, w, target, m);
      var storage := Storage(target, m.name);
      |r.w.fs.clones| == |w.fs.clones| + 1 ==>
        && !Exists(w.fs, storage)
        && LatestRevision(sh.svnLog(m.repo)).Success?
        && r.w.fs.clones == w.fs.clones +
             [CloneCall(m.repo, PathJoin(ExternalsDir, m.name), LatestRevision(sh.svnLog(m.repo)).value, storage)]
        && storage in r.w.fs.paths
        && r.w.fs.paths == w.fs.paths + ClonedPaths(sh, target, m)
        && ExcludeOf(r.w.fs.exclude, storage) == ExcludeOf(w.fs.exclude, storage) + IgnoreLines(sh, storage)
    ensures var r := LinkOne(sh, w, target, m);
      |r.w.fs.clones| == |w.fs.clones| ==> r.w.fs.paths == w.fs.paths
    ensures var r := LinkOne(sh, w, target, m);
      Exists(w.fs, Storage(target, m.name)) ==>
        && r.w.fs.clones == w.fs.clones && r.w.fs.paths == w.fs.paths
        && (r.raised == None <==> m.name != [])
  {
    StorageBelowTarget(target, m.name);
    FetchClones(sh, w, target, m);
    LinkAfterFetch(sh, w, target, m);
  }

  /** `LinkOneClones` for the fetch alone. */
  lemma {:induction false} FetchClones(sh: Shell, w: World, target: String, m: Mount)
    ensures var e := Fetch(sh, w, target, m);
      var storage := Storage(target, m.name);
      && w.fs.clones <= e.w.fs.clones && |e.w.fs.clones| <= |w.fs.clones| + 1
      && (|e.w.fs.clones| == |w.fs.clones| + 1 ==>
            && !Exists(w.fs, storage)
            && LatestRevision(sh.svnLog(m.repo)).Success?
            && e.w.fs.clones == w.fs.clones +
                 [CloneCall(m.repo, PathJoin(ExternalsDir, m.name), LatestRevision(sh.svnLog(m.repo)).value, storage)]
            && storage in e.w.fs.paths
            && e.w.fs.paths == w.fs.paths + ClonedPaths(sh, target, m)
            && ExcludeOf(e.w.fs.exclude, storage) == ExcludeOf(w.fs.exclude, storage) + IgnoreLines(sh, storage))
      && (|e.w.fs.clones| == |w.fs.clones| ==> e.w.fs.paths == w.fs.paths)
      && (Exists(w.fs, storage) ==> e == Effect(w, None))
  {
    var storage := Storage(target, m.name);
    if !Exists(w.fs, storage) {
      CloneRepositoryFrame(sh, w, m.repo, PathJoin(ExternalsDir, m.name), storage);
      var rev := LatestRevision(sh.svnLog(m.repo));
      if rev.Success? {
        CloneRepositoryDone(sh, w, m.repo, PathJoin(ExternalsDir, m.name), storage, rev.value);
      }
    }
  }

  /** After the fetch, one pass changes only links, the target's exclude file and the
      output, and it ends normally exactly when the fetch did and the name is not empty. */
  lemma {:induction false} LinkAfterFetch(sh: Shell, w: World, target: String, m: Mount)
    ensures var e := Fetch(sh, w, target, m);
      var r := LinkOne(sh, w, target, m);
      && r.w.fs == e.w.fs.(links := r.w.fs.links, exclude := r.w.fs.exclude)
      && (forall k | k != target :: ExcludeOf(r.w.fs.exclude, k) == ExcludeOf(e.w.fs.exclude, k))
      && (r.raised == None <==> e.raised == None && m.name != [])
  {
    var e := Fetch(sh, w, target, m);
    if e.raised == None && m.name != [] {
      var storage := Storage(target, m.name);
      var w1 := Say(e.w, SymlinkMessage(m, target));
      var linked := WithLink(w1.fs, LinkPath(target, m), storage);
      assert LinkOne(sh, w, target, m) == Effect(w1.(fs := WithExclude(linked, target, [ExcludeEntry(m)])), None);
    }
  }

  /** No link path is `.externals` itself. */
  lemma {:induction false} LinkPathApart(target: String, m: Mount)
    ensures LinkPath(target, m) != PathJoin(target, ExternalsDir)
  {
    var p, x := LinkPath(target, m), PathJoin(target, ExternalsDir);
    if |p| == |x| {
      var i := |target| + 1 + |m.dir|;
      assert p[i] == '/';
      assert x[i] == ExternalsDir[|m.dir|] != '/';
    }
  }

  /** Where an entry's link goes when its link path already holds a link: inside the
      directory that link leads to, under the basename of the storage. */
  function Nested(target: String, m: Mount): String {
    PathJoin(LinkPath(target, m), Basename(Storage(target, m.name)))
  }

  /** An entry that ends normally has a name, leaves its storage in place and adds its line
      to the exclude file of the target; its link step creates no directory and its clone
      no link. The link is made in the state `Fetch` leaves: at the link path when nothing
      exists there, otherwise inside the directory or link there. No other link changes,
      and something exists at the link path afterwards. */
  lemma {:induction false} LinkOneDone(sh: Shell, w: World, target: String, m: Mount)
    ensures var r := LinkOne(sh, w, target, m);
      var f := Fetch(sh, w, target, m).w.fs;
      r.raised == None ==>
        && m.name != []
        && Exists(r.w.fs, Storage(target, m.name))
        && f.links == w.fs.links && r.w.fs.paths == f.paths
        && (!Exists(f, LinkPath(target, m)) ==>
              r.w.fs.links == w.fs.links[LinkPath(target, m) := Storage(target, m.name)])
        && (Exists(f, LinkPath(target, m)) ==>
              r.w.fs.links == w.fs.links[Nested(target, m) := Storage(target, m.name)])
        && Exists(r.w.fs, LinkPath(target, m))
        && ExcludeOf(r.w.fs.exclude, target) == ExcludeOf(w.fs.exclude, target) + [ExcludeEntry(m)]
  {
    var storage := Storage(target, m.name);
    StorageBelowTarget(target, m.name);
    var e := Fetch(sh, w, target, m);
    if !Exists(w.fs, storage) {
      CloneRepositoryFrame(sh, w, m.repo, PathJoin(ExternalsDir, m.name), storage);
      var rev := LatestRevision(sh.svnLog(m.repo));
      if rev.Success? {
        CloneRepositoryDone(sh, w, m.repo, PathJoin(ExternalsDir, m.name), storage, rev.value);
      }
    }
    if e.raised == None && m.name != [] {
      assert e.w.fs.links == w.fs.links;
      assert ExcludeOf(e.w.fs.exclude, target) == ExcludeOf(w.fs.exclude, target);
      var w1 := Say(e.w, SymlinkMessage(m, target));
      var linked := WithLink(w1.fs, LinkPath(target, m), storage);
      var r := Effect(w1.(fs := WithExclude(linked, target, [ExcludeEntry(m)])), None);
      assert LinkOne(sh, w, target, m) == r;
      assert linked.links == w.fs.links[LinkSite(e.w.fs, LinkPath(target, m), storage) := storage];
      ExistsGrows(e.w.fs, r.w.fs, LinkPath(target, m));
    }
  }

  /** An entry with an empty name, from a line of blanks only, looks for `.externals/`: that
      is `.externals` itself, so nothing is cloned. After the symlink message the link to
      the empty name raises, so no link and no exclude line is made. */
  lemma {:induction false} LinkOneEmptyName(sh: Shell, w: World, target: String, m: Mount)
    requires m.name == [] && Exists(w.fs, PathJoin(target, ExternalsDir))
    ensures var r := LinkOne(sh, w, target, m);
      && r.raised == Some(SymlinkFailure(PathJoin(target, ExternalsDir) + "/"))
      && r.w.fs == w.fs
      && r.w.ui == Put(w.ui, [SymlinkMessage(m, target)])
  {
    var dir := PathJoin(target, ExternalsDir);
    assert Storage(target, m.name) == dir + "/";
    ExistsWithSlash(w.fs, dir);
  }

  /** `LinkAll` over a longer sequence: the last entry runs on the world the others left,
      unless they raised. */
  lemma {:induction false} LinkAllSnoc(sh: Shell, w: World, target: String, front: seq<Mount>, m: Mount)
    ensures var e := LinkAll(sh, w, target, front);
      LinkAll(sh, w, target, front + [m]) == if e.raised.Some? then e else LinkOne(sh, e.w, target, m)
  {
    assert (front + [m])[..|front|] == front;
  }

  /** The entries keep the indentation, make no checkout, remove no path and only add clones. */
  lemma {:induction false} LinkAllFrame(sh: Shell, w: World, target: String, ms: seq<Mount>)
    ensures var r := LinkAll(sh, w, target, ms);
      && r.w.ui == w.ui.(written := r.w.ui.written)
      && w.ui.written <= r.w.ui.written
      && r.w.fs.checkouts == w.fs.checkouts
      && w.fs.paths <= r.w.fs.paths
      && w.fs.clones <= r.w.fs.clones
  {
    if ms != [] {
      var front := ms[..|ms| - 1];
      LinkAllFrame(sh, w, target, front);
      var e := LinkAll(sh, w, target, front);
      if e.raised.None? {
        LinkOneFrame(sh, e.w, target, ms[|ms| - 1]);
      }
    }
  }

  /** Locations are pairwise different. */
  predicate DistinctLocations(cs: seq<CloneCall>) {
    forall i, j | 0 <= i < j < |cs| :: cs[i].at != cs[j].at
  }

  /** Each clone the entries make goes to a storage that did not exist before and exists
      after, and no storage is cloned twice: a name listed twice is cloned once. */
  lemma {:induction false} LinkAllClonesOnce(sh: Shell, w: World, target: String, ms: seq<Mount>)
    ensures var r := LinkAll(sh, w, target, ms);
      w.fs.clones <= r.w.fs.clones && FreshSince(w.fs, r.w.fs.clones, r.w.fs.paths)
  {
    LinkAllFrame(sh, w, target, ms);
    if ms != [] {
      var front := ms[..|ms| - 1];
      var m := ms[|ms| - 1];
      LinkAllClonesOnce(sh, w, target, front);
      LinkAllFrame(sh, w, target, front);
      var e := LinkAll(sh, w, target, front);
      if e.raised.None? {
        var r := LinkOne(sh, e.w, target, m);
        assert LinkAll(sh, w, target, ms) == r;
        LinkOneClonesFresh(sh, w.fs, e.w, target, m);
      }
    }
  }

  /** The step of `LinkAllClonesOnce`: an entry's clone, if any, goes where no earlier clone
      went. */
  lemma {:induction false} LinkOneClonesFresh(sh: Shell, start: Fs, v: World, target: String, m: Mount)
    requires start.clones <= v.fs.clones && start.paths <= v.fs.paths
    requires FreshSince(start, v.fs.clones, v.fs.paths)
    ensures var r := LinkOne(sh, v, target, m);
      start.clones <= r.w.fs.clones && FreshSince(start, r.w.fs.clones, r.w.fs.paths)
  {
    LinkOneFrame(sh, v, target, m);
    LinkOneClones(sh, v, target, m);
    var r := LinkOne(sh, v, target, m);
    if |r.w.fs.clones| == |v.fs.clones| + 1 {
      var c := r.w.fs.clones[|v.fs.clones|];
      assert r.w.fs.clones == v.fs.clones + [c];
      FreshAppend(start, v.fs.clones, v.fs.paths, c, r.w.fs.paths);
    } else {
      assert r.w.fs.clones == v.fs.clones;
    }
  }

  /** The clones logged after `start` went to pairwise different locations, none of which
      existed in `start`, and all of which exist in `paths`. */
  predicate FreshSince(start: Fs, clones: seq<CloneCall>, paths: set<String>)
    requires start.clones <= clones
  {
    && DistinctLocations(clones[|start.clones|..])
    && forall c | c in clones[|start.clones|..] :: c.at !in start.paths && c.at in paths
  }

  lemma {:induction false} FreshAppend(start: Fs, clones: seq<CloneCall>, paths: set<String>, c: CloneCall, paths': set<String>)
    requires start.clones <= clones && start.paths <= paths && paths <= paths'
    requires FreshSince(start, clones, paths)
    requires c.at !in paths && c.at in paths'
    ensures FreshSince(start, clones + [c], paths')
  {
    var n := |start.clones|;
    var before := clones[n..];
    assert (clones + [c])[n..] == before + [c];
    forall x | x in before
      ensures x.at != c.at
    {
      assert x.at in paths;
    }
  }

  /** When the entries end normally, the exclude file of the target gains exactly one line
      `dir/ext_dir` per entry, in listing order. */
  lemma {:induction false} LinkAllExclude(sh: Shell, w: World, target: String, ms: seq<Mount>)
    ensures var r := LinkAll(sh, w, target, ms);
      r.raised == None ==>
        ExcludeOf(r.w.fs.exclude, target) == ExcludeOf(w.fs.exclude, target) + ExcludeEntries(ms)
  {
    if ms != [] {
      var front := ms[..|ms| - 1];
      var m := ms[|ms| - 1];
      var e := LinkAll(sh, w, target, front);
      if e.raised.None? {
        var r := LinkOne(sh, e.w, target, m);
        assert LinkAll(sh, w, target, ms) == r;
        if r.raised == None {
          LinkAllExclude(sh, w, target, front);
          LinkOneDone(sh, e.w, target, m);
          ExcludeStep(ExcludeOf(w.fs.exclude, target), ExcludeOf(e.w.fs.exclude, target),
                      ExcludeOf(r.w.fs.exclude, target), ms);
        }
      }
    }
  }

  /** The step of `LinkAllExclude`. */
  lemma {:induction false} ExcludeStep(start: seq<String>, before: seq<String>, after: seq<String>, ms: seq<Mount>)
    requires ms != []
    requires before == start + ExcludeEntries(ms[..|ms| - 1])
    requires after == before + [ExcludeEntry(ms[|ms| - 1])]
    ensures after == start + ExcludeEntries(ms)
  {
  }

  /** Every place an entry can put its link: its link path, or inside what that path leads
      to. */
  function Sites(target: String, ms: seq<Mount>): set<String> {
    if ms == [] then {}
    else Sites(target, ms[..|ms| - 1]) + {LinkPath(target, ms[|ms| - 1]), Nested(target, ms[|ms| - 1])}
  }

  /** A site belongs to some entry. */
  lemma {:induction false} SitesMember(target: String, ms: seq<Mount>, q: String)
    requires q in Sites(target, ms)
    ensures exists k | 0 <= k < |ms| :: LinkPath(target, ms[k]) == q || Nested(target, ms[k]) == q
  {
    var front := ms[..|ms| - 1];
    var m := ms[|ms| - 1];
    assert Sites(target, ms) == Sites(target, front) + {LinkPath(target, m), Nested(target, m)};
    if q in Sites(target, front) {
      SitesMember(target, front, q);
      var k :| 0 <= k < |front| && (LinkPath(target, front[k]) == q || Nested(target, front[k]) == q);
      assert ms[k] == front[k];
      assert 0 <= k < |ms| && (LinkPath(target, ms[k]) == q || Nested(target, ms[k]) == q);
    } else {
      assert LinkPath(target, ms[|ms| - 1]) == q || Nested(target, ms[|ms| - 1]) == q;
    }
  }

  /** When the entries end normally, something exists at every entry's link path, a link
      or the directory the link went into; no link is removed, and every new link sits at an
      entry's link path or inside it. */
  lemma {:induction false} LinkAllLinks(sh: Shell, w: World, target: String, ms: seq<Mount>)
    ensures var r := LinkAll(sh, w, target, ms);
      r.raised == None ==>
        && (forall m | m in ms :: Exists(r.w.fs, LinkPath(target, m)))
        && w.fs.links.Keys <= r.w.fs.links.Keys
        && r.w.fs.links.Keys <= w.fs.links.Keys + Sites(target, ms)
  {
    if ms != [] {
      var front := ms[..|ms| - 1];
      var m := ms[|ms| - 1];
      var e := LinkAll(sh, w, target, front);
      if e.raised.None? {
        var r := LinkOne(sh, e.w, target, m);
        assert LinkAll(sh, w, target, ms) == r;
        if r.raised == None {
          LinkAllLinks(sh, w, target, front);
          LinkOneDone(sh, e.w, target, m);
          LinkOneFrame(sh, e.w, target, m);
          var nested := Exists(Fetch(sh, e.w, target, m).w.fs, LinkPath(target, m));
          LinkOneKeepsLinks(w.fs.links, e.w.fs.links, r.w.fs.links, target, front, m, nested);
          LastSplit(ms);
          forall m' | m' in ms
            ensures Exists(r.w.fs, LinkPath(target, m'))
          {
            if m' != m {
              assert m' in front;
              ExistsGrows(e.w.fs, r.w.fs, LinkPath(target, m'));
            }
          }
        }
      }
    }
  }

  /** The step of `LinkAllLinks`: the entry's link lands at its link path, or inside it when
      something is `nested` there. */
  lemma {:induction false} LinkOneKeepsLinks(start: map<String, String>, before: map<String, String>,
                          after: map<String, String>, target: String, front: seq<Mount>, m: Mount, nested: bool)
    requires start.Keys <= before.Keys <= start.Keys + Sites(target, front)
    requires !nested ==> after == before[LinkPath(target, m) := Storage(target, m.name)]
    requires nested ==> after == before[Nested(target, m) := Storage(target, m.name)]
    ensures start.Keys <= after.Keys <= start.Keys + Sites(target, front + [m])
  {
    SitesSnoc(target, front, m);
  }

  /** The loops create a directory only as part of some entry's clone. */
  lemma {:induction false} LinkAllAvoids(sh: Shell, w: World, target: String, ms: seq<Mount>, q: String)
    requires q !in w.fs.paths
    requires forall m | m in ms :: q !in ClonedPaths(sh, target, m)
    ensures q !in LinkAll(sh, w, target, ms).w.fs.paths
  {
    if ms != [] {
      var front := ms[..|ms| - 1];
      var m := ms[|ms| - 1];
      assert forall m' | m' in front :: m' in ms;
      LinkAllAvoids(sh, w, target, front, q);
      var e := LinkAll(sh, w, target, front);
      if e.raised == None {
        LinkOneFrame(sh, e.w, target, m);
        LinkOneClones(sh, e.w, target, m);
      }
    }
  }

  lemma {:induction false} SitesSnoc(target: String, front: seq<Mount>, m: Mount)
    ensures Sites(target, front + [m]) == Sites(target, front) + {LinkPath(target, m), Nested(target, m)}
  {
    assert (front + [m])[..|front|] == front;
  }

  /** The position of the first entry whose link path is `p`, or `|ms|` when there is none. */
  function FirstWith(target: String, ms: seq<Mount>, p: String): (i: nat)
    ensures i <= |ms|
    ensures i < |ms| ==> LinkPath(target, ms[i]) == p
    ensures forall k | 0 <= k < |ms| && LinkPath(target, ms[k]) == p :: i <= k
  {
    if ms == [] then 0
    else if LinkPath(target, ms[0]) == p then 0
    else
      var i := 1 + FirstWith(target, ms[1..], p);
      assert forall k | 1 <= k < |ms| :: ms[k] == ms[1..][k - 1];
      i
  }

  /** The links the entries make land where the proof can follow them: no entry's link
      path holds a link before the loops, and no link made inside a directory lands on an
      entry's link path. */
  predicate LinksApart(links: map<String, String>, target: String, ms: seq<Mount>) {
    && (forall m | m in ms :: LinkPath(target, m) !in links)
    && (forall m, m' | m in ms && m' in ms :: Nested(target, m) != LinkPath(target, m'))
  }

  /** No entry's link path is a directory, before the loops or made by any entry's clone,
      and none ends in a slash: what exists at a link path can only be a link. */
  predicate PathsApart(sh: Shell, paths: set<String>, target: String, ms: seq<Mount>) {
    && (forall m | m in ms ::
          LinkPath(target, m) !in paths && TrimSlashes(LinkPath(target, m)) == LinkPath(target, m))
    && (forall m, m' | m in ms && m' in ms :: LinkPath(target, m') !in ClonedPaths(sh, target, m))
  }

  lemma {:induction false} PathsApartPrefix(sh: Shell, paths: set<String>, target: String, front: seq<Mount>, m: Mount)
    requires PathsApart(sh, paths, target, front + [m])
    ensures PathsApart(sh, paths, target, front)
  {
    assert forall x | x in front :: x in front + [m];
  }

  lemma {:induction false} LinksApartPrefix(links: map<String, String>, target: String, front: seq<Mount>, m: Mount)
    requires LinksApart(links, target, front + [m])
    ensures LinksApart(links, target, front)
  {
    assert forall x | x in front :: x in front + [m];
  }

  /** The link at entry `j`'s link path points at the storage of the first entry listed
      with that link path. */
  predicate LinkedToFirstAt(links: map<String, String>, target: String, ms: seq<Mount>, j: int)
    requires 0 <= j < |ms|
  {
    var i := FirstWith(target, ms, LinkPath(target, ms[j]));
    LinkPath(target, ms[j]) in links && links[LinkPath(target, ms[j])] == Storage(target, ms[i].name)
  }

  /** Every entry's link path points at the storage of the first entry listed with it. */
  predicate LinkedToFirst(links: map<String, String>, target: String, ms: seq<Mount>) {
    forall j | 0 <= j < |ms| :: LinkedToFirstAt(links, target, ms, j)
  }

  /** The first entry with a given link path wins: when the entries end normally, the link
      at each entry's link path points at the storage of the first entry listed with that
      link path. A later entry with the same link path leaves that link alone. */
  lemma {:induction false} LinkAllFirstWins(sh: Shell, w: World, target: String, ms: seq<Mount>)
    requires LinksApart(w.fs.links, target, ms) && PathsApart(sh, w.fs.paths, target, ms)
    ensures var r := LinkAll(sh, w, target, ms);
      r.raised == None ==> LinkedToFirst(r.w.fs.links, target, ms)
  {
    if ms != [] {
      var front := ms[..|ms| - 1];
      var m := ms[|ms| - 1];
      var e := LinkAll(sh, w, target, front);
      if e.raised.None? {
        var r := LinkOne(sh, e.w, target, m);
        assert LinkAll(sh, w, target, ms) == r;
        if r.raised == None {
          LastSplit(ms);
          LinksApartPrefix(w.fs.links, target, front, m);
          PathsApartPrefix(sh, w.fs.paths, target, front, m);
          LinkAllFirstWins(sh, w, target, front);
          LinkAllLinks(sh, w, target, front);
          FrontLinked(sh, w, target, front);
          LinkOneDone(sh, e.w, target, m);
          NestedOnlyOnLink(sh, w, target, front, m);
          FirstWinsStep(w.fs.links, e.w.fs.links, r.w.fs.links, target, front, m);
        }
      }
    }
  }

  /** Under `PathsApart`, something exists at the last entry's link path once its external
      is fetched exactly when a link is there. */
  lemma {:induction false} NestedOnlyOnLink(sh: Shell, w: World, target: String, front: seq<Mount>, m: Mount)
    requires PathsApart(sh, w.fs.paths, target, front + [m])
    ensures var e := LinkAll(sh, w, target, front);
      Exists(Fetch(sh, e.w, target, m).w.fs, LinkPath(target, m)) <==> LinkPath(target, m) in e.w.fs.links
  {
    var ms := front + [m];
    var p := LinkPath(target, m);
    assert m in ms;
    assert p !in w.fs.paths && TrimSlashes(p) == p && p !in ClonedPaths(sh, target, m);
    forall x | x in front
      ensures p !in ClonedPaths(sh, target, x)
    {
      assert x in ms;
    }
    LinkAllAvoids(sh, w, target, front, p);
    FetchFinds(sh, LinkAll(sh, w, target, front).w, target, m, p);
  }

  /** A path that is no directory before the fetch and none of those the clone creates is,
      after the fetch, found exactly when a link is there. */
  lemma {:induction false} FetchFinds(sh: Shell, v: World, target: String, m: Mount, q: String)
    requires q !in v.fs.paths && q !in ClonedPaths(sh, target, m) && TrimSlashes(q) == q
    ensures Exists(Fetch(sh, v, target, m).w.fs, q) <==> q in v.fs.links
  {
    var storage := Storage(target, m.name);
    if !Exists(v.fs, storage) {
      CloneRepositoryFrame(sh, v, m.repo, PathJoin(ExternalsDir, m.name), storage);
      var rev := LatestRevision(sh.svnLog(m.repo));
      if rev.Success? {
        CloneRepositoryDone(sh, v, m.repo, PathJoin(ExternalsDir, m.name), storage, rev.value);
      }
    }
  }

  /** Under `PathsApart`, what exists at an entry's link path after the loops is a link. */
  lemma {:induction false} FrontLinked(sh: Shell, w: World, target: String, ms: seq<Mount>)
    requires PathsApart(sh, w.fs.paths, target, ms)
    ensures var r := LinkAll(sh, w, target, ms);
      r.raised == None ==> forall m | m in ms :: LinkPath(target, m) in r.w.fs.links
  {
    LinkAllLinks(sh, w, target, ms);
    forall m | m in ms
      ensures LinkPath(target, m) !in LinkAll(sh, w, target, ms).w.fs.paths
    {
      LinkAllAvoids(sh, w, target, ms, LinkPath(target, m));
    }
  }

  /** A non-empty sequence is its front followed by its last element. */
  lemma {:induction false} LastSplit<T>(s: seq<T>)
    requires s != []
    ensures s == s[..|s| - 1] + [s[|s| - 1]]
  {
  }

  /** The step of `LinkAllFirstWins`. */
  lemma {:induction false} FirstWinsStep(start: map<String, String>, before: map<String, String>,
                      after: map<String, String>, target: String, front: seq<Mount>, m: Mount)
    requires LinksApart(start, target, front + [m])
    requires forall m' | m' in front :: LinkPath(target, m') in before
    requires before.Keys <= start.Keys + Sites(target, front)
    requires LinkedToFirst(before, target, front)
    requires LinkPath(target, m) !in before ==> after == before[LinkPath(target, m) := Storage(target, m.name)]
    requires LinkPath(target, m) in before ==> after == before[Nested(target, m) := Storage(target, m.name)]
    ensures LinkedToFirst(after, target, front + [m])
  {
    if LinkPath(target, m) in before {
      FirstWinsSeen(start, before, after, target, front, m);
    } else {
      FirstWinsNew(before, after, target, front, m);
    }
  }

  /** An entry whose link path already holds a link: that link is an earlier entry's, and it
      stays. */
  lemma {:induction false} FirstWinsSeen(start: map<String, String>, before: map<String, String>,
                      after: map<String, String>, target: String, front: seq<Mount>, m: Mount)
    requires LinksApart(start, target, front + [m])
    requires before.Keys <= start.Keys + Sites(target, front)
    requires LinkedToFirst(before, target, front)
    requires LinkPath(target, m) in before
    requires after == before[Nested(target, m) := Storage(target, m.name)]
    ensures LinkedToFirst(after, target, front + [m])
  {
    var ms := front + [m];
    NestedApart(start, target, front, m);
    var k := SeenEarlier(start, before, target, front, m);
    assert m in ms;
    SeenKept(before, after, target, front, m, k);
    LinkedToFirstFront(before, after, target, front, m, Nested(target, m), Storage(target, m.name));
  }

  /** The last entry's link path is an earlier entry's, and the link there is kept. */
  lemma {:induction false} SeenKept(before: map<String, String>, after: map<String, String>, target: String,
                 front: seq<Mount>, m: Mount, k: nat)
    requires k < |front| && LinkPath(target, front[k]) == LinkPath(target, m)
    requires LinkedToFirstAt(before, target, front, k)
    requires Nested(target, m) != LinkPath(target, m)
    requires after == before[Nested(target, m) := Storage(target, m.name)]
    ensures LinkedToFirstAt(after, target, front + [m], |front|)
  {
    var ms := front + [m];
    var p := LinkPath(target, m);
    FirstWithPrefix(target, front, m, p, k);
    var i := FirstWith(target, front, p);
    assert ms[i] == front[i];
    assert ms[|front|] == m;
  }

  /** The link the last entry makes inside a directory is at no earlier entry's link path. */
  lemma {:induction false} NestedApart(start: map<String, String>, target: String, front: seq<Mount>, m: Mount)
    requires LinksApart(start, target, front + [m])
    ensures forall j | 0 <= j < |front| :: Nested(target, m) != LinkPath(target, front[j])
  {
    var ms := front + [m];
    assert m in ms;
    forall j | 0 <= j < |front|
      ensures Nested(target, m) != LinkPath(target, front[j])
    {
      assert front[j] == ms[j];
    }
  }

  /** A link path that already holds a link, and held none at the start, is an earlier
      entry's link path. */
  lemma {:induction false} SeenEarlier(start: map<String, String>, before: map<String, String>, target: String,
                    front: seq<Mount>, m: Mount) returns (k: nat)
    requires LinksApart(start, target, front + [m])
    requires before.Keys <= start.Keys + Sites(target, front)
    requires LinkPath(target, m) in before
    ensures k < |front| && LinkPath(target, front[k]) == LinkPath(target, m)
  {
    var ms := front + [m];
    var p := LinkPath(target, m);
    assert m in ms;
    assert p !in start;
    SitesMember(target, front, p);
    k :| 0 <= k < |front| && (LinkPath(target, front[k]) == p || Nested(target, front[k]) == p);
    assert front[k] == ms[k];
  }

  /** An entry whose link path holds no link yet: it is the first with that path. */
  lemma {:induction false} FirstWinsNew(before: map<String, String>, after: map<String, String>,
                     target: String, front: seq<Mount>, m: Mount)
    requires forall m' | m' in front :: LinkPath(target, m') in before
    requires LinkedToFirst(before, target, front)
    requires LinkPath(target, m) !in before
    requires after == before[LinkPath(target, m) := Storage(target, m.name)]
    ensures LinkedToFirst(after, target, front + [m])
  {
    var ms := front + [m];
    var p := LinkPath(target, m);
    forall j | 0 <= j < |front|
      ensures LinkPath(target, front[j]) != p
    {
      assert front[j] in front;
    }
    FirstWithLast(target, front, m);
    assert ms[|front|] == m;
    assert LinkedToFirstAt(after, target, ms, |front|);
    LinkedToFirstFront(before, after, target, front, m, p, Storage(target, m.name));
  }

  /** Links the last entry does not touch keep the earlier entries' links to their first
      entries. */
  lemma {:induction false} LinkedToFirstFront(before: map<String, String>, after: map<String, String>,
                           target: String, front: seq<Mount>, m: Mount, q: String, v: String)
    requires LinkedToFirst(before, target, front)
    requires after == before[q := v]
    requires forall j | 0 <= j < |front| :: LinkPath(target, front[j]) != q
    requires LinkedToFirstAt(after, target, front + [m], |front|)
    ensures LinkedToFirst(after, target, front + [m])
  {
    var ms := front + [m];
    forall j | 0 <= j < |ms|
      ensures LinkedToFirstAt(after, target, ms, j)
    {
      if j < |front| {
        assert LinkedToFirstAt(before, target, front, j);
        assert ms[j] == front[j];
        var p := LinkPath(target, front[j]);
        FirstWithPrefix(target, front, m, p, j);
        var i := FirstWith(target, front, p);
        assert ms[i] == front[i];
      }
    }
  }

  /** Entries added after the first with link path `p` do not change which is first. */
  lemma {:induction false} FirstWithPrefix(target: String, front: seq<Mount>, m: Mount, p: String, k: nat)
    requires k < |front| && LinkPath(target, front[k]) == p
    ensures FirstWith(target, front + [m], p) == FirstWith(target, front, p) <= k
  {
    var ms := front + [m];
    var i, i' := FirstWith(target, front, p), FirstWith(target, ms, p);
    assert ms[k] == front[k];
    assert forall j | 0 <= j < |front| :: ms[j] == front[j];
  }

  /** An entry whose link path no earlier entry has is the first with it. */
  lemma {:induction false} FirstWithLast(target: String, front: seq<Mount>, m: Mount)
    requires forall j | 0 <= j < |front| :: LinkPath(target, front[j]) != LinkPath(target, m)
    ensures FirstWith(target, front + [m], LinkPath(target, m)) == |front|
  {
    var ms := front + [m];
    assert ms[|front|] == m;
    assert forall j | 0 <= j < |front| :: ms[j] == front[j];
  }

  /** An entry listed twice is cloned at most once. When nothing exists at its link path once
      its external is fetched, the first pass links it there; the second keeps that link and
      makes a second link to the same clone inside the directory the first one leads to,
      that is, inside the clone itself. */
  lemma {:induction false} LinkAllRepeated(sh: Shell, w: World, target: String, m: Mount)
    requires !Exists(Fetch(sh, w, target, m).w.fs, LinkPath(target, m))
    ensures var r := LinkAll(sh, w, target, [m, m]);
      r.raised == None ==>
        && LinkPath(target, m) in r.w.fs.links && Nested(target, m) in r.w.fs.links
        && r.w.fs.links[LinkPath(target, m)] == Storage(target, m.name)
        && r.w.fs.links[Nested(target, m)] == Storage(target, m.name)
        && |r.w.fs.clones| <= |w.fs.clones| + 1
  {
    LinkAllTwo(sh, w, target, m, m);
    var e1 := LinkOne(sh, w, target, m);
    LinkOneDone(sh, w, target, m);
    LinkOneFrame(sh, w, target, m);
    if e1.raised == None {
      Relink(sh, e1.w, target, m);
      assert Nested(target, m) != LinkPath(target, m);
    }
  }

  /** `LinkAll` over two entries. */
  lemma {:induction false} LinkAllTwo(sh: Shell, w: World, target: String, a: Mount, b: Mount)
    ensures var e := LinkOne(sh, w, target, a);
      LinkAll(sh, w, target, [a, b]) == if e.raised.Some? then e else LinkOne(sh, e.w, target, b)
  {
    assert [a, b][..1] == [a] && [a][..0] == [];
    assert LinkAll(sh, w, target, [a]) == LinkOne(sh, w, target, a);
  }

  /** An entry whose storage exists and whose link path holds a link clones nothing and
      adds its link inside the one there. */
  lemma {:induction false} Relink(sh: Shell, v: World, target: String, m: Mount)
    requires LinkPath(target, m) in v.fs.links && Exists(v.fs, Storage(target, m.name))
    ensures var r := LinkOne(sh, v, target, m);
      r.raised == None ==>
        && r.w.fs.links == v.fs.links[Nested(target, m) := Storage(target, m.name)]
        && r.w.fs.clones == v.fs.clones
  {
    FetchClones(sh, v, target, m);
    LinkAfterFetch(sh, v, target, m);
    LinkOneDone(sh, v, target, m);
  }

  /** When every storage already exists, the entries clone nothing and create nothing: a
      second installation only relinks, and it raises exactly when an entry has an empty
      name. */
  lemma {:induction false} LinkAllReuses(sh: Shell, w: World, target: String, ms: seq<Mount>)
    requires forall m | m in ms :: Exists(w.fs, Storage(target, m.name))
    ensures var r := LinkAll(sh, w, target, ms);
      && r.w.fs.clones == w.fs.clones && r.w.fs.paths == w.fs.paths
      && w.fs.links.Keys <= r.w.fs.links.Keys
      && (r.raised == None <==> forall m | m in ms :: m.name != [])
  {
    if ms != [] {
      var front := ms[..|ms| - 1];
      var m := ms[|ms| - 1];
      assert forall m' | m' in front :: m' in ms;
      assert forall m' | m' in ms :: m' in front || m' == m;
      LinkAllReuses(sh, w, target, front);
      var e := LinkAll(sh, w, target, front);
      if e.raised == None {
        ExistsGrows(w.fs, e.w.fs, Storage(target, m.name));
        LinkOneClones(sh, e.w, target, m);
        LinkOneFrame(sh, e.w, target, m);
      }
    }
  }

  /** A raise ends the loops: later entries change nothing. */
  lemma {:induction false} LinkAllStops(sh: Shell, w: World, target: String, ms: seq<Mount>, more: seq<Mount>)
    requires LinkAll(sh, w, target, ms).raised.Some?
    ensures LinkAll(sh, w, target, ms + more) == LinkAll(sh, w, target, ms)
  {
    if more == [] {
      assert ms + more == ms;
    } else {
      var front := more[..|more| - 1];
      assert (ms + more)[..|ms + more| - 1] == ms + front;
      LinkAllStops(sh, w, target, ms, front);
    }
  }

  /** `clone_externals` makes no checkout, only adds clones and paths, and keeps `hasIo`
      and `verbose`; it restores the indentation when it ends normally and leaves it one
      deeper when it raises, as nothing undoes its `indent` on the way out. */
  lemma {:induction false} CloneExternalsFrame(sh: Shell, w: World, repo: String, target: String)
    ensures var r := CloneExternalsSpec(sh, w, repo, target);
      && r.w.fs.checkouts == w.fs.checkouts
      && w.fs.paths <= r.w.fs.paths
      && w.fs.clones <= r.w.fs.clones
      && r.w.ui == w.ui.(level := r.w.ui.level, written := r.w.ui.written)
      && w.ui.written <= r.w.ui.written
      && r.w.ui.level == if r.raised == None then w.ui.level else w.ui.level + 1
  {
    CloneListedFrame(sh, w, repo, target, GetExternals(sh.svnExternals(repo), repo));
  }

  /** `CloneExternalsFrame` for any parse result. */
  lemma {:induction false} CloneListedFrame(sh: Shell, w: World, repo: String, target: String,
                                             listed: Result<seq<External>, ExternalsError>)
    ensures var r := CloneListed(sh, w, repo, target, listed);
      && r.w.fs.checkouts == w.fs.checkouts
      && w.fs.paths <= r.w.fs.paths
      && w.fs.clones <= r.w.fs.clones
      && r.w.ui == w.ui.(level := r.w.ui.level, written := r.w.ui.written)
      && w.ui.written <= r.w.ui.written
      && r.w.ui.level == if r.raised == None then w.ui.level else w.ui.level + 1
  {
    match listed
    case Failure(_) =>
    case Success(exts) =>
      var w1 := Say(w, ExternalsMessage(repo));
      var w2 := w1.(ui := Indented(w1.ui));
      var fs := WithExclude(WithPath(w2.fs, PathJoin(target, ExternalsDir)), target, [ExternalsDir]);
      var v := w2.(fs := fs);
      ExternalsDirFrame(w, repo, target, v);
      var e := LinkAll(sh, v, target, MountsOf(exts));
      LinkAllFrame(sh, v, target, MountsOf(exts));
      UnindentFrame(w, v, e, CloneListed(sh, w, repo, target, listed));
  }

  /** The world `clone_externals` hands to its loops: the message, the indent, `.externals`
      and its exclude line. */
  lemma {:induction false} ExternalsDirFrame(w: World, repo: String, target: String, v: World)
    requires v == Say(w, ExternalsMessage(repo)).(ui := Indented(Say(w, ExternalsMessage(repo)).ui))
                  .(fs := WithExclude(WithPath(w.fs, PathJoin(target, ExternalsDir)), target, [ExternalsDir]))
    ensures v.ui == w.ui.(level := w.ui.level + 1, written := v.ui.written)
    ensures w.ui.written <= v.ui.written
    ensures v.fs.checkouts == w.fs.checkouts && w.fs.paths <= v.fs.paths && w.fs.clones == v.fs.clones
  {
  }

  /** The frame of `clone_externals` from that of its loops: `v` is the world after the
      message, the indent, `.externals` and its exclude line, `e` what the loops leave. */
  lemma {:induction false} UnindentFrame(w: World, v: World, e: Effect, r: Effect)
    requires v.ui == w.ui.(level := w.ui.level + 1, written := v.ui.written)
    requires w.ui.written <= v.ui.written
    requires v.fs.checkouts == w.fs.checkouts && w.fs.paths <= v.fs.paths && w.fs.clones == v.fs.clones
    requires e.w.ui == v.ui.(written := e.w.ui.written) && v.ui.written <= e.w.ui.written
    requires e.w.fs.checkouts == v.fs.checkouts && v.fs.paths <= e.w.fs.paths && v.fs.clones <= e.w.fs.clones
    requires r == if e.raised.Some? then e else Effect(e.w.(ui := Unindented(e.w.ui)), None)
    ensures && r.w.fs.checkouts == w.fs.checkouts
            && w.fs.paths <= r.w.fs.paths
            && w.fs.clones <= r.w.fs.clones
            && r.w.ui == w.ui.(level := r.w.ui.level, written := r.w.ui.written)
            && w.ui.written <= r.w.ui.written
            && r.w.ui.level == if r.raised == None then w.ui.level else w.ui.level + 1
  {
  }

  /** A listing with a block that has no " - " makes `clone_externals` raise before it
      touches the file system. */
  lemma {:induction false} CloneExternalsRaises(sh: Shell, w: World, repo: String, target: String)
    requires GetExternals(sh.svnExternals(repo), repo).Failure?
    ensures var r := CloneExternalsSpec(sh, w, repo, target);
      && r.raised == Some(ExternalsFailure(repo, GetExternals(sh.svnExternals(repo), repo).error))
      && r.w.fs == w.fs
  {
  }

  /** When `clone_externals` ends normally, `.externals` exists under the target, the
      exclude file of the target gains `.externals` and then one `dir/ext_dir` line per
      listed entry in listing order, something exists at every entry's link path, and no
      storage was cloned twice. When the links land apart and no link path is a directory,
      each link path holds a link to the storage of the first entry listed with that link
      path. */
  lemma {:induction false} CloneExternalsDone(sh: Shell, w: World, repo: String, target: String, exts: seq<External>)
    requires GetExternals(sh.svnExternals(repo), repo) == Success(exts)
    ensures var r := CloneExternalsSpec(sh, w, repo, target);
      var ms := MountsOf(exts);
      r.raised == None ==>
        && PathJoin(target, ExternalsDir) in r.w.fs.paths
        && ExcludeOf(r.w.fs.exclude, target) ==
             ExcludeOf(w.fs.exclude, target) + [ExternalsDir] + ExcludeEntries(ms)
        && (forall m | m in ms :: Exists(r.w.fs, LinkPath(target, m)))
        && (LinksApart(w.fs.links, target, ms) && PathsApart(sh, w.fs.paths, target, ms) ==>
              LinkedToFirst(r.w.fs.links, target, ms))
        && w.fs.clones <= r.w.fs.clones
        && DistinctLocations(r.w.fs.clones[|w.fs.clones|..])
  {
    CloneListedDone(sh, w, repo, target, exts);
  }

  /** `CloneExternalsDone` for a parse that succeeded with `exts`. */
  lemma {:induction false} CloneListedDone(sh: Shell, w: World, repo: String, target: String, exts: seq<External>)
    ensures var r := CloneListed(sh, w, repo, target, Success(exts));
      var ms := MountsOf(exts);
      r.raised == None ==>
        && PathJoin(target, ExternalsDir) in r.w.fs.paths
        && ExcludeOf(r.w.fs.exclude, target) ==
             ExcludeOf(w.fs.exclude, target) + [ExternalsDir] + ExcludeEntries(ms)
        && (forall m | m in ms :: Exists(r.w.fs, LinkPath(target, m)))
        && (LinksApart(w.fs.links, target, ms) && PathsApart(sh, w.fs.paths, target, ms) ==>
              LinkedToFirst(r.w.fs.links, target, ms))
        && w.fs.clones <= r.w.fs.clones
        && DistinctLocations(r.w.fs.clones[|w.fs.clones|..])
  {
    var w1 := Say(w, ExternalsMessage(repo));
    var w2 := w1.(ui := Indented(w1.ui));
    var fs := WithExclude(WithPath(w2.fs, PathJoin(target, ExternalsDir)), target, [ExternalsDir]);
    var ms := MountsOf(exts);
    var v := w2.(fs := fs);
    LinkAllFrame(sh, v, target, ms);
    LinkAllExclude(sh, v, target, ms);
    LinkAllLinks(sh, v, target, ms);
    LinkAllClonesOnce(sh, v, target, ms);
    if LinksApart(w.fs.links, target, ms) && PathsApart(sh, w.fs.paths, target, ms) {
      assert v.fs.links == w.fs.links;
      forall m | m in ms
        ensures LinkPath(target, m) !in v.fs.paths
      {
        LinkPathApart(target, m);
      }
      LinkAllFirstWins(sh, v, target, ms);
    }
    var e := LinkAll(sh, v, target, ms);
    if e.raised == None {
      assert fs.clones == w.fs.clones;
      assert ExcludeOf(e.w.fs.exclude, target) == (ExcludeOf(w.fs.exclude, target) + [ExternalsDir]) + ExcludeEntries(ms);
    }
  }

  // ---------------------------------------------------------------- what run does

  /** A wrong number of arguments prints the usage line and exits with status 1 before
      anything else happens. */
  lemma {:induction false} RunUsage(sh: Shell, w: World, args: seq<String>)
    requires |args| != 2
    ensures var r := RunSpec(sh, w, args);
      && r.outcome == Exited(1)
      && r.w.fs == w.fs
      && r.w.ui == Put(w.ui, [Usage])
  {
  }

  /** An existing target prints an error and exits with status 1 before any clone. */
  lemma {:induction false} RunTargetExists(sh: Shell, w: World, args: seq<String>)
    requires |args| == 2 && Exists(w.fs, sh.expandPath(args[1]))
    ensures var r := RunSpec(sh, w, args);
      && r.outcome == Exited(1)
      && r.w.fs == w.fs
      && r.w.ui == Put(w.ui, [AlreadyExists(sh.expandPath(args[1]))])
  {
  }

  /** A run that raises makes no working branch. */
  lemma {:induction false} RunRaisedMakesNoBranch(sh: Shell, w: World, args: seq<String>)
    ensures var r := RunSpec(sh, w, args);
      !r.outcome.Completed? ==> r.w.fs.checkouts == w.fs.checkouts
  {
    if |args| == 2 && !Exists(w.fs, sh.expandPath(args[1])) {
      var fullpath := sh.expandPath(args[1]);
      CloneRepositoryFrame(sh, w, args[0], fullpath, fullpath);
      var e1 := CloneRepositorySpec(sh, w, args[0], fullpath, fullpath);
      if e1.raised == None {
        CloneExternalsFrame(sh, e1.w, args[0], fullpath);
      }
    }
  }

  /** A completed run cloned the repository into the expanded target first, then installed
      the externals, and made exactly one checkout of the `working` branch, in the target,
      last; the target's exclude file gained the ignore lines, `.externals` and the entries'
      lines, in that order; the indentation is back where it was. */
  lemma {:induction false} RunCompleted(sh: Shell, w: World, args: seq<String>)
    requires RunSpec(sh, w, args).outcome == Completed
    ensures |args| == 2 && !Exists(w.fs, sh.expandPath(args[1]))
    ensures LatestRevision(sh.svnLog(args[0])).Success?
    ensures GetExternals(sh.svnExternals(args[0]), args[0]).Success?
    ensures var fullpath := sh.expandPath(args[1]);
      var r := RunSpec(sh, w, args);
      && r.w.fs.checkouts == w.fs.checkouts + [Checkout(fullpath, Branch)]
      && |w.fs.clones| < |r.w.fs.clones|
      && r.w.fs.clones[|w.fs.clones|] ==
           CloneCall(args[0], fullpath, LatestRevision(sh.svnLog(args[0])).value, fullpath)
      && ExcludeOf(r.w.fs.exclude, fullpath) ==
           ExcludeOf(w.fs.exclude, fullpath) + IgnoreLines(sh, fullpath) + [ExternalsDir] +
           ExcludeEntries(MountsOf(GetExternals(sh.svnExternals(args[0]), args[0]).value))
      && r.w.ui.level == w.ui.level
  {
    RunCompletedSteps(sh, w, args);
    var repo := args[0];
    var fullpath := sh.expandPath(args[1]);
    var rev := LatestRevision(sh.svnLog(repo)).value;
    CloneRepositoryFrame(sh, w, repo, fullpath, fullpath);
    CloneRepositoryDone(sh, w, repo, fullpath, fullpath, rev);
    var e1 := CloneRepositorySpec(sh, w, repo, fullpath, fullpath);
    var exts := GetExternals(sh.svnExternals(repo), repo).value;
    CloneExternalsFrame(sh, e1.w, repo, fullpath);
    CloneExternalsDone(sh, e1.w, repo, fullpath, exts);
    var e2 := CloneExternalsSpec(sh, e1.w, repo, fullpath);
    assert e2.w.fs.clones[|w.fs.clones|] == e1.w.fs.clones[|w.fs.clones|];
    assert ExcludeOf(e2.w.fs.exclude, fullpath) ==
      (ExcludeOf(w.fs.exclude, fullpath) + IgnoreLines(sh, fullpath)) + [ExternalsDir] + ExcludeEntries(MountsOf(exts));
  }

  /** A completed run went through all three steps, none of them raising. */
  lemma {:induction false} RunCompletedSteps(sh: Shell, w: World, args: seq<String>)
    requires RunSpec(sh, w, args).outcome == Completed
    ensures |args| == 2 && !Exists(w.fs, sh.expandPath(args[1]))
    ensures var fullpath := sh.expandPath(args[1]);
      var e1 := CloneRepositorySpec(sh, w, args[0], fullpath, fullpath);
      var e2 := CloneExternalsSpec(sh, e1.w, args[0], fullpath);
      && e1.raised == None && e2.raised == None
      && RunSpec(sh, w, args).w == CreateWorkingBranchSpec(e2.w, fullpath)
  {
  }

  // ---------------------------------------------------------------- the steps, in place

  method IgnoreGeneratedFiles(sh: Shell, fs: FileSystem, ui: UI, at: String)
    modifies fs, ui
    ensures World(fs.Snapshot(), ui.State()) ==
      IgnoreGeneratedFilesSpec(sh, World(old(fs.Snapshot()), old(ui.State())), at)
  {
    ui.Puts([IgnoringMessage]);
    fs.AppendExclude(at, IgnoreLines(sh, at));
  }

  method CloneRepository(sh: Shell, fs: FileSystem, ui: UI, repo: String, target: String, at: String)
    returns (raised: Option<Failure>)
    modifies fs, ui
    ensures Effect(World(fs.Snapshot(), ui.State()), raised) ==
      CloneRepositorySpec(sh, World(old(fs.Snapshot()), old(ui.State())), repo, target, at)
  {
    ui.Puts([RevisionMessage(repo)]);
    var revision := LatestRevision(sh.svnLog(repo));
    if revision.Failure? {
      return Some(RevisionFailure(repo, revision.error));
    }
    ui.Puts([CreatingMessage(target)]);
    ui.Indent();
    var results := fs.GitSvnClone(sh, repo, target, revision.value, at);
    MakeEmptyDirectories(fs, ui, at, EmptyDirs(results));
    IgnoreGeneratedFiles(sh, fs, ui, at);
    ui.Unindent();
    raised := None;
  }

  /** The loop of `clone_repository` over the directories the clone reported empty. */
  method MakeEmptyDirectories(fs: FileSystem, ui: UI, at: String, dirs: seq<String>)
    modifies fs, ui
    ensures World(fs.Snapshot(), ui.State()) ==
      MakeEmptyDirs(World(old(fs.Snapshot()), old(ui.State())), at, dirs)
  {
    ghost var start := World(fs.Snapshot(), ui.State());
    var i := 0;
    while i < |dirs|
      invariant 0 <= i <= |dirs|
      invariant World(fs.Snapshot(), ui.State()) == MakeEmptyDirs(start, at, dirs[..i])
    {
      ui.Puts([EmptyDirMessage(dirs[i])]);
      fs.MkdirP(PathJoin(at, dirs[i]));
      assert dirs[..i + 1][..i] == dirs[..i];
      i := i + 1;
    }
    assert dirs[..i] == dirs;
  }

  method CloneExternals(sh: Shell, fs: FileSystem, ui: UI, repo: String, target: String)
    returns (raised: Option<Failure>)
    modifies fs, ui
    ensures Effect(World(fs.Snapshot(), ui.State()), raised) ==
      CloneExternalsSpec(sh, World(old(fs.Snapshot()), old(ui.State())), repo, target)
  {
    ui.Puts([ExternalsMessage(repo)]);
    ui.Indent();
    var externals := GetExternals(sh.svnExternals(repo), repo);
    if externals.Failure? {
      return Some(ExternalsFailure(repo, externals.error));
    }
    var exts := externals.value;
    fs.MkdirP(PathJoin(target, ExternalsDir));
    fs.AppendExclude(target, [ExternalsDir]);
    raised := LinkExternals(sh, fs, ui, target, exts);
    if raised.None? {
      ui.Unindent();
    }
  }

  /** The nested loops of `clone_externals` over the parsed listing `exts`. */
  method LinkExternals(sh: Shell, fs: FileSystem, ui: UI, target: String, exts: seq<External>)
    returns (raised: Option<Failure>)
    modifies fs, ui
    ensures Effect(World(fs.Snapshot(), ui.State()), raised) ==
      LinkAll(sh, World(old(fs.Snapshot()), old(ui.State())), target, MountsOf(exts))
  {
    ghost var start := World(fs.Snapshot(), ui.State());
    var i := 0;
    while i < |exts|
      invariant 0 <= i <= |exts|
      invariant LinkAll(sh, start, target, MountsOf(exts[..i])) == Effect(World(fs.Snapshot(), ui.State()), None)
    {
      var x := exts[i];
      ghost var done := MountsOf(exts[..i]);
      EntriesStart(done, x);
      var j := 0;
      while j < |x.repos|
        invariant 0 <= j <= |x.repos|
        invariant LinkAll(sh, start, target, done + EntriesOf(x)[..j]) == Effect(World(fs.Snapshot(), ui.State()), None)
      {
        var m := MountOf(x.dir, x.repos[j]);
        ghost var prefix := done + EntriesOf(x)[..j];
        EntriesStep(done, x, j);
        LinkAllSnoc(sh, start, target, prefix, m);
        var r := LinkEntry(sh, fs, ui, target, m);
        if r.Some? {
          MountsOfSplit(exts, i, j);
          LinkAllStops(sh, start, target, prefix + [m], EntriesOf(x)[j + 1..] + MountsOf(exts[i + 1..]));
          return r;
        }
        j := j + 1;
      }
      EntriesEnd(done, x);
      MountsOfSnoc(exts, i);
      i := i + 1;
    }
    assert exts[..i] == exts;
    raised := None;
  }

  /** One pass of the inner loop of `clone_externals`. */
  method LinkEntry(sh: Shell, fs: FileSystem, ui: UI, target: String, m: Mount)
    returns (raised: Option<Failure>)
    modifies fs, ui
    ensures Effect(World(fs.Snapshot(), ui.State()), raised) ==
      LinkOne(sh, World(old(fs.Snapshot()), old(ui.State())), target, m)
  {
    var storage := Storage(target, m.name);
    var present := fs.Exist(storage);
    if !present {
      raised := CloneRepository(sh, fs, ui, m.repo, PathJoin(ExternalsDir, m.name), storage);
      if raised.Some? {
        return;
      }
    }
    ui.Puts([SymlinkMessage(m, target)]);
    if m.name == [] {
      return Some(SymlinkFailure(storage));
    }
    fs.Symlink(storage, LinkPath(target, m));
    fs.AppendExclude(target, [ExcludeEntry(m)]);
    raised := None;
  }

  lemma {:induction false} EntriesStart(done: seq<Mount>, x: External)
    ensures done + EntriesOf(x)[..0] == done
  {
  }

  lemma {:induction false} EntriesStep(done: seq<Mount>, x: External, j: nat)
    requires j < |x.repos|
    ensures done + EntriesOf(x)[..j + 1] == (done + EntriesOf(x)[..j]) + [MountOf(x.dir, x.repos[j])]
  {
    assert EntriesOf(x)[..j + 1] == EntriesOf(x)[..j] + [EntriesOf(x)[j]];
  }

  lemma {:induction false} EntriesEnd(done: seq<Mount>, x: External)
    ensures done + EntriesOf(x)[..|x.repos|] == done + EntriesOf(x)
  {
  }

  /** Regrouping a sequence around its element `j`. */
  lemma {:induction false} Regroup(a: seq<Mount>, es: seq<Mount>, rest: seq<Mount>, j: nat)
    requires j < |es|
    ensures a + es + rest == (a + es[..j] + [es[j]]) + (es[j + 1..] + rest)
  {
    assert es == es[..j] + [es[j]] + es[j + 1..];
  }

  lemma {:induction false} MountsOfSnoc(exts: seq<External>, i: nat)
    requires i < |exts|
    ensures MountsOf(exts[..i + 1]) == MountsOf(exts[..i]) + EntriesOf(exts[i])
  {
    assert exts[..i + 1][..i] == exts[..i];
  }

  lemma {:induction false} MountsOfAppend(a: seq<External>, b: seq<External>)
    ensures MountsOf(a + b) == MountsOf(a) + MountsOf(b)
  {
    if b == [] {
      assert a + b == a;
    } else {
      var front := b[..|b| - 1];
      assert (a + b)[..|a + b| - 1] == a + front;
      MountsOfAppend(a, front);
    }
  }

  /** The entries up to entry `j` of external `i`, followed by the remaining ones. */
  lemma {:induction false} MountsOfSplit(exts: seq<External>, i: nat, j: nat)
    requires i < |exts| && j < |exts[i].repos|
    ensures MountsOf(exts) ==
      (MountsOf(exts[..i]) + EntriesOf(exts[i])[..j] + [MountOf(exts[i].dir, exts[i].repos[j])]) +
      (EntriesOf(exts[i])[j + 1..] + MountsOf(exts[i + 1..]))
  {
    var a := MountsOf(exts[..i]);
    var es := EntriesOf(exts[i]);
    var rest := MountsOf(exts[i + 1..]);
    MountsOfAppend(exts[..i + 1], exts[i + 1..]);
    assert exts[..i + 1] + exts[i + 1..] == exts;
    MountsOfSnoc(exts, i);
    assert MountsOf(exts) == a + es + rest;
    Regroup(a, es, rest, j);
  }

  method CreateWorkingBranch(fs: FileSystem, ui: UI, target: String)
    modifies fs, ui
    ensures World(fs.Snapshot(), ui.State()) ==
      CreateWorkingBranchSpec(World(old(fs.Snapshot()), old(ui.State())), target)
  {
    ui.Puts([BranchMessage(target)]);
    fs.GitCheckout(target, Branch);
  }

  /** `check_for_local_dir`: whether the target exists, after reporting it. */
  method CheckForLocalDir(fs: FileSystem, ui: UI, target: String) returns (exists_: bool)
    modifies ui
    ensures exists_ <==> Exists(fs.Snapshot(), target)
    ensures ui.State() == if exists_ then Put(old(ui.State()), [AlreadyExists(target)]) else old(ui.State())
  {
    exists_ := fs.Exist(target);
    if exists_ {
      ui.Puts([AlreadyExists(target)]);
    }
  }

  method Run(sh: Shell, fs: FileSystem, ui: UI, args: seq<String>) returns (outcome: Outcome)
    modifies fs, ui
    ensures Finish(World(fs.Snapshot(), ui.State()), outcome) ==
      RunSpec(sh, World(old(fs.Snapshot()), old(ui.State())), args)
  {
    if |args| != 2 {
      ui.Puts([Usage]);
      return Exited(1);
    }
    var repo, target := args[0], args[1];
    var fullpath := sh.expandPath(target);
    var exists_ := CheckForLocalDir(fs, ui, fullpath);
    if exists_ {
      return Exited(1);
    }
    var raised := CloneRepository(sh, fs, ui, repo, fullpath, fullpath);
    if raised.Some? {
      return Raised(raised.value);
    }
    raised := CloneExternals(sh, fs, ui, repo, fullpath);
    if raised.Some? {
      return Raised(raised.value);
    }
    CreateWorkingBranch(fs, ui, fullpath);
    outcome := Completed;
  }
}
