/**
 * What `Gitstart::Application` needs from the machine it runs on: the output of the external
 * tools it calls (`svn`, `git svn`, `git`), and a file system reduced to what the application
 * creates and reads back: existing paths, the lines of each repository's
 * `.git/info/exclude`, symbolic links, and the log of `git svn clone` and `git checkout`
 * calls.
 */
module Host {
  import opened RubyText

  /** The external tools, as functions of their arguments. `svnLog` is `svn log --limit 1`,
      `svnExternals` is `svn propget svn:externals -R`, `gitSvnClone` is
      `git svn clone -r <revision> <repo> <target> 2>&1`, `showIgnore` is
      `git svn show-ignore` run inside the given repository, and `expandPath` is
      `File.expand_path`. */
  datatype Shell = Shell(
    svnLog: String -> String,
    svnExternals: String -> String,
    gitSvnClone: (String, String, String) -> String,
    showIgnore: String -> String,
    expandPath: String -> String)

  /** One `git svn clone`: its arguments, and the location `at` the target names. */
  datatype CloneCall = CloneCall(repo: String, target: String, revision: String, at: String)

  /** One `git checkout -b <branch>` inside the repository at `at`. */
  datatype Checkout = Checkout(at: String, branch: String)

  /** A snapshot of the file system. `exclude` maps a repository location to the lines of
      its `.git/info/exclude`; `links` maps a symbolic link to what it points at. */
  datatype Fs = Fs(
    paths: set<String>,
    exclude: map<String, seq<String>>,
    links: map<String, String>,
    clones: seq<CloneCall>,
    checkouts: seq<Checkout>)

  /** The exclude lines of the repository at `at`; a missing file has none. */
  function ExcludeOf(exclude: map<String, seq<String>>, at: String): seq<String> {
    if at in exclude then exclude[at] else []
  }

  /** Opening `.git/info/exclude` of the repository at `at` in append mode and writing
      `lines`: the lines land at its end, and no other repository's file changes. */
  function Appended(exclude: map<String, seq<String>>, at: String, lines: seq<String>)
    : (r: map<String, seq<String>>)
    ensures ExcludeOf(r, at) == ExcludeOf(exclude, at) + lines
    ensures forall k | k != at :: ExcludeOf(r, k) == ExcludeOf(exclude, k)
    ensures r.Keys == exclude.Keys + {at}
  {
    exclude[at := ExcludeOf(exclude, at) + lines]
  }

  /** `FileUtils.mkdir_p(p)`. */
  function WithPath(fs: Fs, p: String): (r: Fs)
    ensures r.paths == fs.paths + {p}
    ensures r == fs.(paths := r.paths)
  {
    fs.(paths := fs.paths + {p})
  }

  /** Appending `lines` to the exclude file of the repository at `at`. */
  function WithExclude(fs: Fs, at: String, lines: seq<String>): (r: Fs)
    ensures ExcludeOf(r.exclude, at) == ExcludeOf(fs.exclude, at) + lines
    ensures forall k | k != at :: ExcludeOf(r.exclude, k) == ExcludeOf(fs.exclude, k)
    ensures r == fs.(exclude := r.exclude)
  {
    fs.(exclude := Appended(fs.exclude, at, lines))
  }

  /** Where `FileUtils.symlink(to, link, :force => true)` makes its link. FileUtils first asks
      whether `link` is a directory, following links, and if so makes the link inside it,
      under the basename of `to`. Every path recorded here is a directory and every link
      leads to a clone, which is one, so whatever exists at `link` sends the new link
      inside it. */
  function LinkSite(fs: Fs, link: String, to: String): (r: String)
    ensures !Exists(fs, link) ==> r == link
    ensures Exists(fs, link) ==> r == PathJoin(link, Basename(to)) && r != link
  {
    if Exists(fs, link) then PathJoin(link, Basename(to)) else link
  }

  /** `FileUtils.symlink(to, link, :force => true)`: a link to `to` at `LinkSite`, replacing
      whatever link was at that site (`force` removes it first); nothing but the links
      changes. `WithLinkKeeps` states what stays. */
  function WithLink(fs: Fs, link: String, to: String): (r: Fs)
    ensures LinkSite(fs, link, to) in r.links && r.links[LinkSite(fs, link, to)] == to
    ensures r == fs.(links := r.links)
  {
    fs.(links := fs.links[LinkSite(fs, link, to) := to])
  }

  /** A forced symlink keeps every other link, a link already at the requested name
      included, and adds no link but the new one. */
  lemma {:induction false} WithLinkKeeps(fs: Fs, link: String, to: String)
    ensures var r := WithLink(fs, link, to);
      && (forall k | k in fs.links && k != LinkSite(fs, link, to) :: k in r.links && r.links[k] == fs.links[k])
      && (link in fs.links ==> link in r.links && r.links[link] == fs.links[link])
      && r.links.Keys == fs.links.Keys + {LinkSite(fs, link, to)}
  {
  }

  /** `git svn clone` creates the repository at `at` and is logged. */
  function WithClone(fs: Fs, call: CloneCall): (r: Fs)
    ensures r.paths == fs.paths + {call.at}
    ensures r.clones == fs.clones + [call]
    ensures r == fs.(paths := r.paths, clones := r.clones)
  {
    fs.(paths := fs.paths + {call.at}, clones := fs.clones + [call])
  }

  /** `git checkout -b` is logged. */
  function WithCheckout(fs: Fs, c: Checkout): (r: Fs)
    ensures r.checkouts == fs.checkouts + [c]
    ensures r == fs.(checkouts := r.checkouts)
  {
    fs.(checkouts := fs.checkouts + [c])
  }

  /** `File.exist?(p)`: `p` names a directory or a symbolic link, and every link here leads
      to a directory; trailing slashes after a directory's name still name it. */
  predicate Exists(fs: Fs, p: String) {
    var q := TrimSlashes(p);
    p in fs.paths || p in fs.links || q in fs.paths || q in fs.links
  }

  /** What exists keeps existing while paths and links are only added. */
  lemma {:induction false} ExistsGrows(fs: Fs, fs': Fs, p: String)
    requires fs.paths <= fs'.paths && fs.links.Keys <= fs'.links.Keys
    ensures Exists(fs, p) ==> Exists(fs', p)
  {
  }

  /** A directory named with a trailing slash exists when the directory does. */
  lemma {:induction false} ExistsWithSlash(fs: Fs, a: String)
    requires a != [] && a[|a| - 1] != '/'
    ensures TrimSlashes(a + "/") == a
    ensures Exists(fs, a) ==> Exists(fs, a + "/")
  {
    var p := a + "/";
    assert p[..|p| - 1] == a;
  }

  /** The file system the application works on, changed in place by each call. */
  class FileSystem {
    var paths: set<String>
    var exclude: map<String, seq<String>>
    var links: map<String, String>
    var clones: seq<CloneCall>
    var checkouts: seq<Checkout>

    function Snapshot(): Fs
      reads this
    {
      Fs(paths, exclude, links, clones, checkouts)
    }

    constructor(initial: Fs)
      ensures Snapshot() == initial
    {
      paths := initial.paths;
      exclude := initial.exclude;
      links := initial.links;
      clones := initial.clones;
      checkouts := initial.checkouts;
    }

    /** `File.exist?(p)`. */
    method Exist(p: String) returns (b: bool)
      ensures b == Exists(Snapshot(), p)
    {
      var q := TrimSlashes(p);
      b := p in paths || p in links || q in paths || q in links;
    }

    method MkdirP(p: String)
      modifies this
      ensures Snapshot() == WithPath(old(Snapshot()), p)
    {
      paths := paths + {p};
    }

    method AppendExclude(at: String, lines: seq<String>)
      modifies this
      ensures Snapshot() == WithExclude(old(Snapshot()), at, lines)
    {
      exclude := Appended(exclude, at, lines);
    }

    method Symlink(to: String, link: String)
      modifies this
      ensures Snapshot() == WithLink(old(Snapshot()), link, to)
    {
      var site := link;
      var isDir := Exist(link);
      if isDir {
        site := PathJoin(link, Basename(to));
      }
      links := links[site := to];
    }

    /** Runs `git svn clone` from the location `at` is resolved against and returns what it
        printed. */
    method GitSvnClone(sh: Shell, repo: String, target: String, revision: String, at: String)
      returns (output: String)
      modifies this
      ensures output == sh.gitSvnClone(repo, target, revision)
      ensures Snapshot() == WithClone(old(Snapshot()), CloneCall(repo, target, revision, at))
    {
      paths := paths + {at};
      clones := clones + [CloneCall(repo, target, revision, at)];
      output := sh.gitSvnClone(repo, target, revision);
    }

    method GitCheckout(at: String, branch: String)
      modifies this
      ensures Snapshot() == WithCheckout(old(Snapshot()), Checkout(at, branch))
    {
      checkouts := checkouts + [Checkout(at, branch)];
    }
  }
}
