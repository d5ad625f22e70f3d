# gitstart, modelled in Dafny

gitstart turns a Subversion repository into a git working copy. `run(args)` expects two
arguments, a repository URL and a target directory. It refuses a target that already exists.
It then clones the repository with `git svn clone` at its latest revision and recreates the
empty directories the clone reports. It appends the Subversion ignore list to
`.git/info/exclude`. Next it installs every `svn:externals` entry: the entry is cloned once
under `.externals/<name>` of the target, linked into its directory, and excluded from git.
Finally it creates a `working` branch. Progress goes to a `UI` object that prefixes every
line with one tab per indentation level.

The model has six modules:

- `Wrappers` (`wrappers.dfy`) holds the `Option` and `Result` types that the others use.
- `RubyText` (`ruby_text.dfy`) gives the parts of Ruby's `String` and `File` that the parsers
  use. These are `chomp`, `split` with a string pattern (with no limit and with a limit of
  2), the awk-style `split()` and `split(' ', 2)`, `gsub` with a literal pattern,
  `File.basename` and `File.join`.
- `ApplicationText` (`application_text.dfy`) holds the four text parsers:
  - the revision from `svn log --limit 1`;
  - the empty-directory warnings in the output of `git svn clone`;
  - the `svn:externals` listing (`get_externals`);
  - its per-directory lines (`parse_external_repos`).

  A `nil` dereference in the source becomes a `Failure` value here.
- `Console` (`ui.dfy`) is the `UI` class.
  - Its state is an indentation level, which is a `nat`, plus whether it has an IO, the
    verbose flag, and the lines written so far.
  - Each method is proved to produce the state given by a function on `UiState`.
- `Host` (`host.dfy`) stands for the machine.
  - The external tools become the functions of a `Shell` value.
  - The file system becomes a `FileSystem` object. It holds the existing paths, the exclude
    lines of each repository, the symbolic links, and the log of clones and checkouts.
- `Application` (`application.dfy`) models `run`, `check_for_local_dir`, `clone_repository`,
  `clone_externals`, `create_working_branch` and `ignore_generated_files`, each in two forms.
  - A function (`CloneRepositorySpec`, `LinkOne`, `LinkAll`, `CloneExternalsSpec`, `RunSpec`,
    …) maps the world before to the world after, together with the exception raised, if
    any.
  - A method changes the `FileSystem` and the `UI` in place, loop by loop, like the source.
    Its postcondition says it ends in the state the function gives.
  - The lemmas state what those functions guarantee.

`Dir.chdir` is not modelled as a current directory. Instead, `clone_repository` receives both
the target text it prints and passes to `git svn clone`, and the location that text names
(`at`). For the main repository the two are the same absolute path. For an external, the
text is `.externals/<name>` and the location is `<target>/.externals/<name>`.

Some of gitstart's behaviour is easy to miss:

- A line of blanks only in an externals block is kept. `split(' ', 2)` turns it into one
  empty field, `[""]`, not an empty list: a positive limit keeps the trailing empty field.
  The entry then has the empty name. `File.exist?(".externals/")` holds, so nothing is
  cloned. The symlink message is printed, and then `File.symlink` to the empty name raises
  Errno::ENOENT, which ends the run with no link and no exclude line for the entry.
  `LinkOneEmptyName` states this.
- `File.exist?` holds for a link to a directory as well as for a directory, and a trailing
  slash after a directory's name still names it. `Exists` models both.
- `get_externals` reduces the directory of each block to its `File.basename` once the
  repository URL is removed. So `repo/vendor/libfoo` becomes `libfoo`, not `vendor/libfoo`.
  `BasenameOfNested` states this collapse.
- A one-part entry line has a `nil` repository. Wherever `clone_repository` uses it, it is
  interpolated as the empty text, and the model uses `""` for it.
- `FileUtils.symlink(src, dest, force: true)` puts the link inside `dest` when `dest` is
  already a directory, and a link to a directory counts. So an entry whose link path
  already holds a link, or is a directory such as one a clone reported empty, gets its link
  at `<link path>/<basename of its storage>`, and what was there stays.
  `LinkAllRepeated` shows this for an entry listed twice.

## Model

| member | source | states |
|---|---|---|
| RubyText.Chomp | lib/gitstart.rb:172 | `chomp` removes exactly one trailing "\r\n", "\n" or "\r" and keeps everything before it |
| RubyText.ChompKeepsHead | lib/gitstart.rb:183 | `chomp` only looks at the end: the text ahead of a non-empty tail is unchanged when it does not end in '\r' (a '\r' there would pair with a leading "\n" of the tail) |
| RubyText.IndexOfSpec | lib/gitstart.rb:186 | `IndexOf` finds the leftmost occurrence of a pattern, or reports that there is none |
| RubyText.JoinFields | lib/gitstart.rb:183 | the fields of a text rejoined with the separator give the text back |
| RubyText.FieldsOfJoin | lib/gitstart.rb:172 | splitting one or more lines joined by a separator character that none of them contains gives the lines back (zero lines join to "", which splits to one empty field) |
| RubyText.FieldsAfterCut | lib/gitstart.rb:183 | the first field ends at the first occurrence of the separator |
| RubyText.DropTrailingEmpty | lib/gitstart.rb:172 | drops exactly the trailing empty fields and keeps the rest in order |
| RubyText.Split | lib/gitstart.rb:172 | `split(sep)`: an empty text gives no field; otherwise the fields, minus the trailing empty ones |
| RubyText.SplitAfterCut | lib/gitstart.rb:183 | a non-empty first field followed by the separator comes first, ahead of the fields of the rest |
| RubyText.SplitOnce | lib/gitstart.rb:186 | `split(' - ', 2)`: the whole text when the separator is absent, else the text before its first occurrence and everything after it |
| RubyText.DeleteAll | lib/gitstart.rb:187 | `gsub(repo, '')` never lengthens the text |
| RubyText.DeleteAllAbsent | lib/gitstart.rb:187 | `gsub(repo, '')` changes nothing when the pattern is empty or does not occur |
| RubyText.DeleteAllKeepsFields | lib/gitstart.rb:187 | `gsub(repo, '')` keeps exactly the text between the occurrences of `repo`, in order |
| RubyText.SkipSpace | lib/gitstart.rb:175 | removes exactly the leading blanks |
| RubyText.TakeWord | lib/gitstart.rb:234 | takes the longest blank-free prefix, which ends at a blank or at the end |
| RubyText.Words | lib/gitstart.rb:234 | `split()` gives blank-free, non-empty words, and none exactly when the text is blank; `WordsDecompose` and `WordsOfInterleave` say which words |
| RubyText.WordsDecompose | lib/gitstart.rb:234 | every text is its blank runs interleaved with its words, with a non-empty run between each two words |
| RubyText.WordsOfInterleave | lib/gitstart.rb:234 | words interleaved with blank runs, non-empty between words, split back into exactly those words |
| RubyText.AwkSplit2 | lib/gitstart.rb:175 | `split(' ', 2)`: no part for "", `[""]` for blanks only; otherwise the first word, and, when anything follows it, a second part, empty if only blanks follow, that starts after the blank run following the first word and runs to the end of the text, so the text is its leading blanks, the first word, that blank run and the second part |
| RubyText.AwkSplit2Rest | lib/gitstart.rb:175 | the second part of `split(' ', 2)` holds exactly the remaining words, and there is no second part only when there is at most one word |
| RubyText.SkipSpaceTwice | lib/gitstart.rb:175 | skipping blanks is idempotent |
| RubyText.PathJoin | lib/gitstart.rb:161 | `File.join(a, b)` is exactly one character longer than its two parts together |
| RubyText.PathJoinApart | lib/gitstart.rb:161 | with slash-free last components, two joined paths are equal exactly when both their parts are, so distinct names give distinct storage paths |
| RubyText.TrimSlashes | lib/gitstart.rb:187 | removes exactly the trailing slashes |
| RubyText.AfterLastSlash | lib/gitstart.rb:187 | the slash-free tail of a path, which starts right after a slash or at the start |
| RubyText.Basename | lib/gitstart.rb:187 | `File.basename`: "" for "", "/" exactly for paths made only of slashes, otherwise the slash-free tail of the path without its trailing slashes, taken from just after its last slash |
| RubyText.BasenameOfComponent | lib/gitstart.rb:187 | a non-empty component without slashes is its own basename |
| RubyText.BasenameTwice | lib/gitstart.rb:187 | `File.basename` is idempotent |
| RubyText.BasenameOfNested | lib/gitstart.rb:187 | for a `b` that is not only slashes, the basename of `a/b` is the basename of `b`, so nested mount paths collapse to their last component |
| ApplicationText.DropRevisionMarker | lib/gitstart.rb:234 | `gsub(/^r/, '')` on a word drops exactly one leading 'r' and nothing else |
| ApplicationText.LatestRevision | lib/gitstart.rb:232-236 | a revision that is read contains no blank |
| ApplicationText.LatestRevisionReadsSecondLine | lib/gitstart.rb:232-236 | whatever the first line says, and whether the log ends with the second line, with its line break, or goes on, the read succeeds exactly when the second line has a word, and then it returns that word without its leading 'r' |
| ApplicationText.LatestRevisionNeedsTwoLines | lib/gitstart.rb:233-234 | a one-line log, with or without its line break, fails because it has no second line |
| ApplicationText.OneLineHasNoSecond | lib/gitstart.rb:233 | a chomped text without a line break splits into at most one line |
| ApplicationText.SecondLineOfLog | lib/gitstart.rb:233 | the line after the first line break is line 1 of the chomped log, and it exists when it is not empty, also when the log ends with it |
| ApplicationText.Markers | lib/gitstart.rb:158 | `d` is listed exactly when `W: +empty_dir: d` is one of the lines |
| ApplicationText.MarkersAppend | lib/gitstart.rb:158 | the scan keeps output order: the directories of `a + b` are those of `a` followed by those of `b` |
| ApplicationText.EmptyDirs | lib/gitstart.rb:158 | `d` is listed exactly when `W: +empty_dir: d` is a line of the clone output |
| ApplicationText.EmptyDirsOfLines | lib/gitstart.rb:158 | over output given line by line, the scan yields the marker suffixes of the matching lines in order, and nothing for the other lines |
| ApplicationText.MarkersOfDropTrailingEmpty | lib/gitstart.rb:158 | dropping trailing empty lines loses no directory |
| ApplicationText.NoMarkersInEmptyLines | lib/gitstart.rb:158 | empty lines report no directory |
| ApplicationText.NonEmpty | lib/gitstart.rb:172 | `reject` keeps exactly the non-empty lines |
| ApplicationText.NonEmptyAppend | lib/gitstart.rb:172 | `reject` keeps the order of the lines it keeps |
| ApplicationText.SplitEach | lib/gitstart.rb:174-176 | one `split(' ', 2)` per line, in order |
| ApplicationText.ParseExternalRepos | lib/gitstart.rb:171-179 | every entry has one or two parts, and there is at most one entry per line |
| ApplicationText.ParseExternalReposOfLines | lib/gitstart.rb:171-179 | over lines joined by "\n", one entry per non-empty line, in line order, each the line's `split(' ', 2)`; an empty last line, that is a text ending in a line break, adds nothing |
| ApplicationText.ExternalOf | lib/gitstart.rb:185-190 | a block raises exactly when it has no " - " (nil reaches `chomp`); otherwise its entries have one or two parts and its directory is a basename |
| ApplicationText.ExternalsOf | lib/gitstart.rb:185-192 | on success there is one entry per block, well formed, each with a basename directory |
| ApplicationText.ExternalsOfRaises | lib/gitstart.rb:185-190 | the listing raises exactly when some block has no " - ", and it reports the first such block |
| ApplicationText.GetExternals | lib/gitstart.rb:181-193 | a listing that is read gives well-formed entries, each with a basename directory |
| ApplicationText.GetExternalsFirstBlock | lib/gitstart.rb:181-193 | a block `dir - body` followed by a blank line gives the first entry, with the basename of `dir` minus the URL and the parsed body, ahead of the entries of the rest |
| ApplicationText.GetExternalsLastBlock | lib/gitstart.rb:181-193 | a listing of one block `dir - body` gives exactly that one entry, whether it ends with the body, with a line break, or with the blank line `svn propget -R` prints after each value |
| ApplicationText.ExternalsOfSingle | lib/gitstart.rb:185-190 | a single block that reads gives a single entry |
| ApplicationText.GetExternalsMissingSeparator | lib/gitstart.rb:186-188 | a first block without " - " makes the whole listing raise, whatever follows it |
| Console.Tabs | lib/gitstart.rb:37 | `"\t" * n` is `n` tabs |
| Console.Prefixed | lib/gitstart.rb:37 | each message is prefixed, one line per message, in order |
| Console.Emitted | lib/gitstart.rb:31-42 | no IO writes nothing; no arguments writes one empty line; otherwise one line per argument, in order, behind `level` tabs |
| Console.Put | lib/gitstart.rb:31-42 | `puts` only appends its lines to the output, and keeps the level and the flags |
| Console.VPut | lib/gitstart.rb:48-50 | `vputs` is `puts` when verbose and changes nothing otherwise |
| Console.Indented | lib/gitstart.rb:21-23 | `indent` adds one to the level and changes nothing else |
| Console.Unindented | lib/gitstart.rb:25-29 | `unindent` takes one off a positive level and leaves level 0 alone |
| Console.UnindentAfterIndent | lib/gitstart.rb:21-29 | `unindent` after `indent` restores the state |
| Console.UnindentedMany | lib/gitstart.rb:25-29 | `k` unindents bring the level to `level - k` but never below 0, and change nothing else |
| Console.PrefixedAppend | lib/gitstart.rb:37 | prefixing distributes over concatenation |
| Console.PutAfterPrefixed | lib/gitstart.rb:31-42 | one more `puts` of a single line extends a run of lines behind the same indentation |
| Console.PutTwice | lib/gitstart.rb:31-42 | two `puts` calls with arguments write what one call with all the arguments writes |
| Console.UI.constructor | lib/gitstart.rb:14-19 | a new UI is at level 0 with nothing written |
| Console.UI.Indent | lib/gitstart.rb:21-23 | the object's new state is `Indented` of the old one |
| Console.UI.Unindent | lib/gitstart.rb:25-29 | the object's new state is `Unindented` of the old one |
| Console.UI.Puts | lib/gitstart.rb:31-42 | the loop over the arguments leaves the object in `Put` of the old state |
| Console.UI.VPuts | lib/gitstart.rb:48-50 | the object's new state is `VPut` of the old one |
| Host.Appended | lib/gitstart.rb:241-246 | appending to one repository's exclude file adds the lines at its end and leaves every other file alone |
| Host.WithPath | lib/gitstart.rb:161 | `mkdir_p` adds the path and changes nothing else |
| Host.WithExclude | lib/gitstart.rb:205 | append mode: the lines land at the end of that repository's exclude file only |
| Host.WithLink | lib/gitstart.rb:215 | a forced symlink puts the new link at `LinkSite`, pointing at its target, and changes nothing but the links; `WithLinkKeeps` says which links stay |
| Host.WithLinkKeeps | lib/gitstart.rb:215 | a forced symlink keeps every existing link except one at its site, keeps one at the requested name in particular, and adds exactly its site to the linked paths |
| Host.LinkSite | lib/gitstart.rb:215 | the link lands at the requested name when nothing exists there, neither a directory nor a link, and otherwise inside what is there, under the basename of the link's target, which is never the requested name itself |
| Host.WithClone | lib/gitstart.rb:157 | `git svn clone` creates its location and is logged once |
| Host.WithCheckout | lib/gitstart.rb:228 | `git checkout -b` is logged once |
| Host.ExistsWithSlash | lib/gitstart.rb:209 | `File.exist?` ignores one trailing slash after a slash-free directory name: such a directory, or a link to it, also exists with the slash |
| Host.FileSystem.Exist | lib/gitstart.rb:144 | `File.exist?` returns exactly `Exists` of the current state: the name, or the name without its trailing slashes, is a directory or a link |
| Host.FileSystem.MkdirP | lib/gitstart.rb:161 | the object's new state is `WithPath` of the old one |
| Host.FileSystem.AppendExclude | lib/gitstart.rb:241-246 | the object's new state is `WithExclude` of the old one |
| Host.FileSystem.Symlink | lib/gitstart.rb:215 | the object's new state is `WithLink` of the old one |
| Host.FileSystem.GitSvnClone | lib/gitstart.rb:105-112 | returns the tool's output and leaves `WithClone` of the old state |
| Host.FileSystem.GitCheckout | lib/gitstart.rb:97-99 | the object's new state is `WithCheckout` of the old one |
| Application.DirMessages | lib/gitstart.rb:160 | one "making empty directory: d" message per directory, in order |
| Application.MakeEmptyDirs | lib/gitstart.rb:159-162 | one directory created under the clone per entry, one message per entry in order behind the current indentation, and nothing else changes |
| Application.CloneRepositoryFrame | lib/gitstart.rb:150-169 | `clone_repository` restores the indentation, only adds output, touches no link, no checkout and no other repository's exclude file, and removes no path; it raises exactly when the revision cannot be read, and then the file system is untouched |
| Application.CloneRepositorySpec | lib/gitstart.rb:150-169 | defines `clone_repository`: the revision message, then a raise when the revision cannot be read; otherwise the creating message, one indent, the clone, the empty directories, the ignore lines and one unindent |
| Application.CloneRepositoryDone | lib/gitstart.rb:150-169 | a successful clone logs one `git svn clone` of the repository at the read revision, creates the clone and every reported empty directory, and appends the ignore lines to the clone's exclude file |
| Application.LinkOneFrame | lib/gitstart.rb:208-218 | one entry keeps the indentation, makes no checkout, removes no path and no link, and adds at most one clone |
| Application.ExcludeEntries | lib/gitstart.rb:217 | one `dir/ext_dir` exclude line per entry, in entry order |
| Application.MountsOf | lib/gitstart.rb:207-208 | defines the entries the two nested `each` loops visit: the entries of each block in block order |
| Application.LinkOne | lib/gitstart.rb:208-218 | defines one pass of the inner loop: clone into the storage unless `File.exist?` finds it, raising when that clone raises; otherwise the message, then a raise for an empty name, or else the forced symlink and the exclude line |
| Application.LinkAll | lib/gitstart.rb:207-219 | defines the nested loops: each entry in turn on the world the earlier ones left, stopping at the first raise |
| Application.LinkOneClones | lib/gitstart.rb:209-215 | an entry clones only when its storage does not exist and its revision reads; that clone is exactly one `git svn clone` of its repository at that revision into its storage, creates exactly the storage and the empty directories the clone reports, and appends exactly the ignore lines to the storage's exclude file, so no externals of the external are fetched; an entry that clones nothing creates nothing; with the storage present it raises exactly when its name is empty |
| Application.LinkOneDone | lib/gitstart.rb:209-217 | a finished entry has a non-empty name and an existing storage; its clone makes no link and its link step no directory; when nothing, neither directory nor link, exists at its link path once the external is fetched it links that path to its storage, otherwise it adds a link to its storage inside what is there; no other link changes, something exists at the link path afterwards, and its `dir/ext_dir` line ends the target's exclude file |
| Application.LinkAllFrame | lib/gitstart.rb:207-219 | the loops keep the indentation, only add output, make no checkout, remove no path and only add clones |
| Application.LinkAllClonesOnce | lib/gitstart.rb:209-211 | every clone the loops make goes to a storage that was missing before and exists afterwards, and no storage is cloned twice, so a repeated name is cloned once |
| Application.LinkOneClonesFresh | lib/gitstart.rb:209-211 | an entry's clone goes where no earlier clone went |
| Application.LinkAllExclude | lib/gitstart.rb:217 | a finished loop appends exactly one `dir/ext_dir` line per entry to the target's exclude file, in listing order |
| Application.FetchClones | lib/gitstart.rb:209-211 | the fetch half of one entry adds at most one clone, exactly the one `LinkOneClones` names, and leaves the world alone when the storage exists |
| Application.LinkAllAvoids | lib/gitstart.rb:207-219 | the loops create a directory only as part of some entry's clone |
| Application.FetchFinds | lib/gitstart.rb:209-215 | a path that is no directory before the fetch and none the clone creates exists after the fetch exactly when a link is there |
| Application.Relink | lib/gitstart.rb:209-216 | an entry whose storage exists and whose link path holds a link clones nothing and adds its link inside that one, leaving every other link alone |
| Application.LinkAllLinks | lib/gitstart.rb:207-219 | after a finished loop something exists at every entry's link path, a link or the directory its link went into; no link is removed, and every new link is at an entry's link path or inside it |
| Application.FrontLinked | lib/gitstart.rb:207-219 | when no entry's link path is a directory before the loops or made by a clone, and none ends in a slash, a finished loop leaves a link at every entry's link path |
| Application.NestedOnlyOnLink | lib/gitstart.rb:209-215 | under the same condition, an entry's link path exists, once its external is fetched, exactly when the earlier entries left a link there |
| Application.FirstWith | lib/gitstart.rb:207-219 | the first entry whose link path is a given path, or the number of entries when there is none |
| Application.LinkAllFirstWins | lib/gitstart.rb:209-216 | when no entry's link path held a link or a directory before, none is a directory any entry's clone creates or ends in a slash, and no nested link lands on an entry's link path, a finished loop leaves each entry's link path pointing at the storage of the first entry with that path; later entries add links inside it |
| Application.LinkAllRepeated | lib/gitstart.rb:209-216 | an entry listed twice whose link path holds nothing, neither directory nor link, once its external is fetched is cloned at most once; its link path points at its storage, and the second pass adds a link to the same storage inside the first link |
| Application.LinkOneEmptyName | lib/gitstart.rb:209-215 | with `.externals` in place, an entry with an empty name clones nothing, prints its symlink message and raises the symlink's Errno::ENOENT, changing no file, link or exclude line |
| Application.LinkAllReuses | lib/gitstart.rb:209-215 | when every storage exists, the loops clone nothing, create nothing and remove no link, and they raise exactly when some entry has an empty name |
| Application.LinkAllStops | lib/gitstart.rb:207-219 | after a raise, later entries change nothing |
| Application.CloneExternalsFrame | lib/gitstart.rb:195-223 | `clone_externals` makes no checkout and removes no path; it restores the indentation when it finishes and leaves it one deeper when it raises |
| Application.CloneExternalsSpec | lib/gitstart.rb:195-223 | defines `clone_externals`: the message and one indent, a raise when the listing does not read, otherwise `.externals` and its exclude line, the nested loops, and one unindent when they finish |
| Application.CloneExternalsRaises | lib/gitstart.rb:199 | a listing block without " - " raises before the file system is touched |
| Application.CloneExternalsDone | lib/gitstart.rb:195-223 | when it finishes, `.externals` exists; the target's exclude file gains `.externals` and then one `dir/ext_dir` line per entry in listing order; something exists at every entry's link path, and when the links lie apart and no link path is a directory it is a link to the storage of the first entry with that link path; no storage is cloned twice |
| Application.RunUsage | lib/gitstart.rb:129-132 | with an argument count other than 2, `run` prints the usage line and exits with status 1, and the file system is untouched |
| Application.RunSpec | lib/gitstart.rb:128-141 | defines `run`: the usage exit, the existing-target exit, then `clone_repository`, `clone_externals` and `create_working_branch` on the expanded target, stopping at the first raise |
| Application.RunTargetExists | lib/gitstart.rb:143-148 | an expanded target that exists, as a directory or a link, prints the error and exits with status 1, and the file system is untouched, so no clone happens |
| Application.RunRaisedMakesNoBranch | lib/gitstart.rb:128-141 | a run that does not complete makes no checkout |
| Application.RunCompletedSteps | lib/gitstart.rb:128-141 | a completed run had two arguments and a fresh target, neither clone step raised, and the branch was made last |
| Application.RunCompleted | lib/gitstart.rb:128-141 | a completed run cloned the repository into the expanded target first; it ends with exactly one checkout of `working` in the target; the target's exclude file gained the show-ignore output, "", "# Git files", ".gitignore", ".externals" and the entry lines, in that order; the indentation is restored |
| Application.IgnoreGeneratedFiles | lib/gitstart.rb:238-247 | the message and the four exclude lines, as `IgnoreGeneratedFilesSpec` gives them |
| Application.CloneRepository | lib/gitstart.rb:150-169 | the method ends in the state `CloneRepositorySpec` gives, raising when it does |
| Application.MakeEmptyDirectories | lib/gitstart.rb:159-162 | the loop over the empty directories ends in the state `MakeEmptyDirs` gives |
| Application.LinkEntry | lib/gitstart.rb:208-218 | one pass of the inner loop ends in the state `LinkOne` gives |
| Application.CloneExternals | lib/gitstart.rb:195-223 | the method ends in the state `CloneExternalsSpec` gives, raising when it does |
| Application.LinkExternals | lib/gitstart.rb:207-219 | the nested loops end in the state `LinkAll` gives, stopping at the first raise |
| Application.MountsOfAppend | lib/gitstart.rb:207-208 | the entries of two listings are those of the first followed by those of the second |
| Application.CreateWorkingBranch | lib/gitstart.rb:225-230 | the message, then one `git checkout -b working` in the target |
| Application.CheckForLocalDir | lib/gitstart.rb:143-148 | reports exactly whether the target exists as `File.exist?` sees it, printing the error message when it does, and changes nothing else |
| Application.Run | lib/gitstart.rb:128-141 | the method ends in the state and outcome `RunSpec` gives |

## Left out

- The `Sh` modules (lib/gitstart.rb:72-118) become the functions of a `Shell` value. These
  are the `svn log`, `svn propget`, `git svn clone`, `git svn show-ignore` and `git checkout`
  invocations, together with their option strings. `File.expand_path` is a `Shell` function
  as well. The tools are assumed to succeed, and a clone is assumed to create its target.
  The output of `git checkout` is discarded, as in the source.
- The `Gitstart.ui` memo and `Gitstart.ui=` (lib/gitstart.rb:5-11) hold no logic, and neither
  does the commented-out `Help` module (lib/gitstart.rb:53-70). `IO#flush` is a flush only.
- `UI#abort` (lib/gitstart.rb:44-46) is never called by the application and ends the process.
- `exit 1` is the outcome `Exited(1)`. A `NoMethodError` on `nil` is the outcome
  `Raised(failure)`. The process ends there in both cases.
- The sink and the exclude files hold one element per `puts` call. Splitting a multi-line
  `git svn show-ignore` output into separate lines is not modelled, and neither is the line
  break that `IO#puts` adds.
- Paths are plain strings. The model does not cover `File.join` merging adjacent slashes.
  Apart from trailing slashes in `Exists`, two texts name two places. `mkdir_p` does not
  record the parent directories it creates.
- Host.Exists: holds for directories and links only. A regular file with the name, which
  `File.exist?` also finds, is not modelled, since the file system holds no regular files.
  Neither is a dangling link, which `File.exist?` does not find, since every link this
  program makes leads to a clone.
- `Dir.chdir(dir)` (lib/gitstart.rb:214) raises when the mount directory is missing from the
  checkout. The file system model does not know the checkout's contents, so this is not
  modelled, and the link is always made.
- `clone_externals` visits the entries of an externals listing read once. Externals of
  externals are never looked up, since `clone_externals` is not called for them
  (lib/gitstart.rb:210). The model has the same shape.
- Host.WithLink: every recorded path counts as a directory: targets, clones, the empty
  directories a clone reports and `.externals`. A link or such a directory at the link path
  sends the new link inside it. The directories a checkout holds beyond those it reports
  empty are not recorded, since `git svn clone` is a `Shell` function whose tree the model
  does not see, so a link path that is such a directory is not nested. A dangling link is
  not modelled, since every link this program makes leads to a clone.
- Application.CloneExternalsDone: says where each link points only when the links lie apart
  (`LinksApart`: no entry's link path held a link before the loops, and no link made inside
  another lands on an entry's link path) and no link path is a directory (`PathsApart`: none
  existed before, none is among the directories any entry's clone creates, none ends in a
  slash). In other cases it says only that something exists at each entry's link path,
  because a directory there sends the link inside it.
- Application.LinkAllLinks: says only that something exists at each entry's link path, not
  that a link is there, because a directory at the link path sends the link inside it.
  `FrontLinked` gives the link when no link path is a directory.
- An entry with no parts cannot come out of the parser, which `ExternalOf` proves. If it
  could, `File.join` would raise on `nil`; `MountOf` gives it empty texts instead.
- ApplicationText.ParseExternalReposOfLines: covers lines that do not end in '\r'. On a text
  whose last character or last line ends in '\r', `chomp` takes that '\r' off too; `Chomp`
  models it, this lemma does not describe it.
- ApplicationText.LatestRevisionReadsSecondLine: when the log ends with its second line,
  covers a second line that does not end in '\r', for the same reason.
