/**
 * The text parsers of `Gitstart::Application`: they read the raw output of `svn log`,
 * `git svn clone` and `svn propget svn:externals -R`. The tools themselves are not part of
 * the model: their output is the input of these functions.
 */
module ApplicationText {
  import opened Wrappers
  import opened RubyText

  // ---------------------------------------------------------------- get_latest_revision

  /** Why reading the revision raises: `results[1]` is nil (fewer than two lines), or the
      second line holds no word, so `split()[0]` is nil. Both end in a NoMethodError. */
  datatype RevisionError = NoSecondLine | BlankSecondLine

  const NewLine: String := "\n"

  /** `gsub(/^r/, '')` applied to a word: a word has no line breaks, so only its first
      character can follow a line start, and at most one leading 'r' goes. */
  function DropRevisionMarker(w: String): (r: String)
    ensures w == "r" + r || (r == w && (w == [] || w[0] != 'r'))
  {
    if w != [] && w[0] == 'r' then w[1..] else w
  }

  /** `get_latest_revision`, given the output of `svn log --limit 1`: the first word of the
      second line of the chomped output, without its leading 'r'. */
  function LatestRevision(log: String): (r: Result<String, RevisionError>)
    ensures r.Success? ==> NoSpace(r.value)
  {
    var lines := Split(Chomp(log), NewLine);
    if |lines| < 2 then Failure(NoSecondLine)
    else
      var words := Words(lines[1]);
      if words == [] then Failure(BlankSecondLine)
      else
        assert words[0] in words;
        Success(DropRevisionMarker(words[0]))
  }

  /** A text without the character `c` is cut right after itself when `[c]` follows. */
  lemma {:induction false} CutsAfterFreeText(h: String, c: char)
    requires c !in h
    ensures CutsAfter(h, [c])
  {
    forall j | 0 <= j < |h|
      ensures !OccursAt(h + [c] + [], [c], j)
    {
      assert (h + [c] + [])[j] == h[j];
    }
  }

  lemma {:induction false} AbsentCharDoesNotOccur(s: String, c: char)
    requires c !in s
    ensures forall j :: !OccursAt(s, [c], j)
  {
    forall j | 0 <= j < |s|
      ensures !OccursAt(s, [c], j)
    {
      assert s[j] in s;
      if j + 1 <= |s| {
        assert s[j..j + 1][0] == s[j];
      }
    }
  }

  /** The chomped log, split into lines, has `line` at index 1 whenever it has an index 1,
      and it has one whenever `line` is not empty. The log may end right after `line`, with or
      without a line break, or go on with further lines. */
  lemma {:induction false} SecondLineOfLog(header: String, line: String, rest: String)
    requires '\n' !in header && '\n' !in line
    requires rest == [] || rest[0] == '\n'
    requires |rest| >= 2 || line == [] || line[|line| - 1] != '\r'
    ensures var lines := Split(Chomp(header + "\n" + line + rest), NewLine);
      (|lines| >= 2 ==> lines[1] == line) && (line != [] ==> |lines| >= 2)
  {
    var log := header + "\n" + line + rest;
    if |rest| >= 2 {
      assert log == header + "\n" + line + "\n" + rest[1..];
      SecondLineOfLongLog(header, line, rest[1..]);
    } else if line == [] {
      var c := Chomp(log);
      if rest == [] {
        assert log == header + "\n";
        assert c == header[..|c|];
        OneLineHasNoSecond(log);
      } else {
        assert log == header + "\n" + "\n";
        assert c == header + "\n";
        CutsAfterFreeText(header, '\n');
        FieldsAfterCut(header, "\n", []);
        assert IndexOf([], NewLine) == None;
        assert Fields(c, NewLine) == [header, []];
        assert DropTrailingEmpty([header, []]) == DropTrailingEmpty([header]);
      }
    } else {
      LastLine(header, line, rest);
      var c := header + "\n" + line;
      CutsAfterFreeText(header, '\n');
      FieldsAfterCut(header, "\n", line);
      AbsentCharDoesNotOccur(line, '\n');
      IndexOfSpec(line, NewLine);
      assert Fields(line, NewLine) == [line];
      assert Fields(c, NewLine) == [header, line];
    }
  }

  /** A log that ends with its second line, with or without a line break, chomps to its first
      two lines. */
  lemma {:induction false} LastLine(header: String, line: String, rest: String)
    requires '\n' !in header && '\n' !in line && line != [] && line[|line| - 1] != '\r'
    requires rest == [] || rest == "\n"
    ensures Chomp(header + "\n" + line + rest) == header + "\n" + line
  {
    var log := header + "\n" + line + rest;
    assert line[|line| - 1] in line;
    if rest == [] {
      assert log == (header + "\n") + line;
      ChompKeepsHead(header + "\n", line);
    } else {
      assert log[|log| - 2] == line[|line| - 1];
      assert log[..|log| - 1] == header + "\n" + line;
    }
  }

  /** `SecondLineOfLog` for a log that goes on after the line break ending `line`. */
  lemma {:induction false} SecondLineOfLongLog(header: String, line: String, rest: String)
    requires '\n' !in header && '\n' !in line && rest != []
    ensures var lines := Split(Chomp(header + "\n" + line + "\n" + rest), NewLine);
      (|lines| >= 2 ==> lines[1] == line) && (line != [] ==> |lines| >= 2)
  {
    var front := header + "\n" + line + "\n";
    ChompKeepsHead(front, rest);
    var c := Chomp(rest);
    var text := header + "\n" + (line + "\n" + c);
    assert Chomp(header + "\n" + line + "\n" + rest) == text;
    CutsAfterFreeText(header, '\n');
    CutsAfterFreeText(line, '\n');
    FieldsAfterCut(header, "\n", line + "\n" + c);
    FieldsAfterCut(line, "\n", c);
    var all := Fields(text, "\n");
    assert all[1] == line;
  }

  /** The revision comes from the second line, whatever the first line and the rest of the
      log say: the log succeeds exactly when that line holds a word, and then the revision is
      that word without its 'r'. The log may end with the second line, so "h\nr5" and
      "h\nr5\n" are read like "h\nr5\nmore". */
  lemma {:induction false} LatestRevisionReadsSecondLine(header: String, line: String, rest: String)
    requires '\n' !in header && '\n' !in line
    requires rest == [] || rest[0] == '\n'
    requires |rest| >= 2 || line == [] || line[|line| - 1] != '\r'
    ensures LatestRevision(header + "\n" + line + rest).Success? <==> Words(line) != []
    ensures Words(line) != [] ==>
      LatestRevision(header + "\n" + line + rest) == Success(DropRevisionMarker(Words(line)[0]))
  {
    SecondLineOfLog(header, line, rest);
    LatestRevisionOfSecondLine(header + "\n" + line + rest, line);
  }

  /** What the log's second line decides, given the facts `SecondLineOfLog` provides. */
  lemma {:induction false} LatestRevisionOfSecondLine(log: String, line: String)
    requires var lines := Split(Chomp(log), NewLine);
      (|lines| >= 2 ==> lines[1] == line) && (line != [] ==> |lines| >= 2)
    ensures LatestRevision(log).Success? <==> Words(line) != []
    ensures Words(line) != [] ==> LatestRevision(log) == Success(DropRevisionMarker(Words(line)[0]))
  {
    var lines := Split(Chomp(log), NewLine);
    if |lines| < 2 {
      assert line == [];
      WordsOfBlank(line);
    } else {
      assert lines[1] == line;
    }
  }

  lemma {:induction false} WordsOfBlank(s: String)
    requires s == []
    ensures Words(s) == []
  {
  }

  /** A log of a single line, with or without its line break, has no revision to read. */
  lemma {:induction false} LatestRevisionNeedsTwoLines(line: String)
    requires '\n' !in line
    ensures LatestRevision(line) == Failure(NoSecondLine)
    ensures LatestRevision(line + "\n") == Failure(NoSecondLine)
  {
    OneLineHasNoSecond(line);
    var s := line + "\n";
    assert Chomp(s) == s[..|Chomp(s)|] && |Chomp(s)| <= |line|;
    assert Chomp(s) == line[..|Chomp(s)|];
    OneLineHasNoSecond(s);
  }

  lemma {:induction false} OneLineHasNoSecond(s: String)
    requires '\n' !in Chomp(s)
    ensures |Split(Chomp(s), NewLine)| <= 1
  {
    var c := Chomp(s);
    AbsentCharDoesNotOccur(c, '\n');
    IndexOfSpec(c, NewLine);
    assert Fields(c, NewLine) == [c];
  }

  // ---------------------------------------------------------------- empty directories

  /** The warning `git svn clone` prints for a directory it could not record. */
  const EmptyDirMarker: String := "W: +empty_dir: "

  /** What follows the marker on each line that starts with it, in line order. */
  function Markers(lines: seq<String>): (r: seq<String>)
    ensures |r| <= |lines|
    ensures forall d :: d in r <==> EmptyDirMarker + d in lines
  {
    if lines == [] then []
    else
      var line := lines[0];
      var here := if EmptyDirMarker <= line then [line[|EmptyDirMarker|..]] else [];
      var rest := Markers(lines[1..]);
      assert forall d :: d in here <==> EmptyDirMarker + d == line by {
        forall d
          ensures d in here <==> EmptyDirMarker + d == line
        {
          MarkerLine(line, d);
        }
      }
      assert forall x :: x in lines <==> x == line || x in lines[1..] by {
        assert lines == [line] + lines[1..];
      }
      here + rest
  }

  lemma {:induction false} MarkerLine(line: String, d: String)
    ensures EmptyDirMarker + d == line <==> EmptyDirMarker <= line && d == line[|EmptyDirMarker|..]
  {
    if EmptyDirMarker <= line {
      assert line == EmptyDirMarker + line[|EmptyDirMarker|..];
    }
  }

  /** The scan keeps line order: the directories of a longer output follow those of its
      beginning. */
  lemma {:induction false} MarkersAppend(a: seq<String>, b: seq<String>)
    ensures Markers(a + b) == Markers(a) + Markers(b)
  {
    if a == [] {
      assert a + b == b;
    } else {
      assert (a + b)[0] == a[0] && (a + b)[1..] == a[1..] + b;
      MarkersAppend(a[1..], b);
    }
  }

  /** The empty-directory scan of `clone_repository` over the output of `git svn clone`. */
  function EmptyDirs(cloneOutput: String): (r: seq<String>)
    ensures forall d :: d in r <==> EmptyDirMarker + d in Split(cloneOutput, NewLine)
  {
    Markers(Split(cloneOutput, NewLine))
  }

  /** Over an output given line by line: exactly the text after the marker of each line that
      starts with it, in output order, and nothing for the other lines. */
  lemma {:induction false} EmptyDirsOfLines(lines: seq<String>)
    requires lines != []
    requires forall k :: 0 <= k < |lines| ==> '\n' !in lines[k]
    ensures EmptyDirs(JoinWith(lines, "\n")) == Markers(lines)
  {
    var text := JoinWith(lines, "\n");
    FieldsOfJoin(lines, "\n");
    if text == [] {
      JoinWithEmpty(lines);
    } else {
      MarkersOfDropTrailingEmpty(lines);
    }
  }

  lemma {:induction false} MarkersOfDropTrailingEmpty(lines: seq<String>)
    ensures Markers(DropTrailingEmpty(lines)) == Markers(lines)
  {
    var kept := DropTrailingEmpty(lines);
    var dropped := lines[|kept|..];
    assert lines == kept + dropped;
    MarkersAppend(kept, dropped);
    NoMarkersInEmptyLines(dropped);
  }

  lemma {:induction false} JoinWithEmpty(lines: seq<String>)
    requires lines != [] && JoinWith(lines, "\n") == []
    ensures lines == [[]]
  {
  }

  lemma {:induction false} NoMarkersInEmptyLines(lines: seq<String>)
    requires forall k :: 0 <= k < |lines| ==> lines[k] == []
    ensures Markers(lines) == []
  {
    if lines != [] {
      NoMarkersInEmptyLines(lines[1..]);
    }
  }

  // ---------------------------------------------------------------- parse_external_repos

  /** `reject { |line| line.nil? or line.empty? }` */
  function NonEmpty(lines: seq<String>): (r: seq<String>)
    ensures |r| <= |lines|
    ensures forall x :: x in r <==> x in lines && x != []
  {
    if lines == [] then []
    else (if lines[0] == [] then [] else [lines[0]]) + NonEmpty(lines[1..])
  }

  /** Rejecting empty entries keeps the order of the others. */
  lemma {:induction false} NonEmptyAppend(a: seq<String>, b: seq<String>)
    ensures NonEmpty(a + b) == NonEmpty(a) + NonEmpty(b)
  {
    if a == [] {
      assert a + b == b;
    } else {
      assert (a + b)[0] == a[0] && (a + b)[1..] == a[1..] + b;
      NonEmptyAppend(a[1..], b);
    }
  }

  /** `collect { |line| line.split(' ', 2) }` */
  function SplitEach(lines: seq<String>): (r: seq<seq<String>>)
    ensures |r| == |lines|
    ensures forall k :: 0 <= k < |lines| ==> r[k] == AwkSplit2(lines[k])
  {
    seq(|lines|, k requires 0 <= k < |lines| => AwkSplit2(lines[k]))
  }

  /** `parse_external_repos`: every non-empty line of the chomped text, split awk-style into
      at most two parts. A line of blanks only is kept and gives one empty part. */
  function ParseExternalRepos(reposText: String): (r: seq<seq<String>>)
    ensures forall p | p in r :: 1 <= |p| <= 2
    ensures |r| <= |Split(Chomp(reposText), NewLine)|
  {
    var lines := NonEmpty(Split(Chomp(reposText), NewLine));
    assert forall k :: 0 <= k < |lines| ==> lines[k] in lines;
    SplitEach(lines)
  }

  lemma {:induction false} JoinWithLast(parts: seq<String>, sep: String)
    requires |parts| >= 2
    ensures JoinWith(parts, sep) == JoinWith(parts[..|parts| - 1], sep) + sep + parts[|parts| - 1]
  {
    if |parts| > 2 {
      JoinWithLast(parts[1..], sep);
      assert parts[1..][..|parts| - 2] == parts[..|parts| - 1][1..];
    }
  }

  /** A text whose last character is that of its last line. */
  lemma {:induction false} JoinWithEndsWithLast(parts: seq<String>, sep: String)
    requires parts != [] && parts[|parts| - 1] != []
    ensures var t := JoinWith(parts, sep); |t| > 0 && t[|t| - 1] == parts[|parts| - 1][|parts[|parts| - 1]| - 1]
  {
    if |parts| >= 2 {
      JoinWithLast(parts, sep);
    }
  }

  /** Lines none of which ends in '\r', joined with line breaks, do not end in '\r'. */
  lemma {:induction false} JoinWithEndsWithoutCR(lines: seq<String>)
    requires forall k :: 0 <= k < |lines| ==> lines[k] == [] || lines[k][|lines[k]| - 1] != '\r'
    ensures var t := JoinWith(lines, "\n"); t == [] || t[|t| - 1] != '\r'
  {
    if |lines| >= 2 {
      JoinWithLast(lines, "\n");
    }
  }

  /** Over a text given line by line: one entry per non-empty line, in line order, each the
      line's `split(' ', 2)`. The last line may be empty, as it is when the text ends in a
      line break. */
  lemma {:induction false} ParseExternalReposOfLines(lines: seq<String>)
    requires forall k :: 0 <= k < |lines| ==> '\n' !in lines[k]
    requires forall k :: 0 <= k < |lines| ==> lines[k] == [] || lines[k][|lines[k]| - 1] != '\r'
    ensures ParseExternalRepos(JoinWith(lines, "\n")) == SplitEach(NonEmpty(lines))
  {
    ChompedLines(lines);
  }

  /** The non-empty lines survive `chomp.split("\n")`, and nothing else does. */
  lemma {:induction false} ChompedLines(lines: seq<String>)
    requires forall k :: 0 <= k < |lines| ==> '\n' !in lines[k]
    requires forall k :: 0 <= k < |lines| ==> lines[k] == [] || lines[k][|lines[k]| - 1] != '\r'
    ensures NonEmpty(Split(Chomp(JoinWith(lines, "\n")), NewLine)) == NonEmpty(lines)
  {
    var text := JoinWith(lines, "\n");
    var n := |lines|;
    if lines == [] {
      ChompKeeps(text);
    } else if lines[n - 1] != [] {
      JoinWithEndsWithLast(lines, "\n");
      assert lines[n - 1][|lines[n - 1]| - 1] in lines[n - 1];
      ChompKeeps(text);
      LinesOfText(lines);
    } else {
      ChompedEmptyLast(lines);
    }
  }

  /** `ChompedLines` when the last line is empty: the text ends in the line break that
      `chomp` removes. */
  lemma {:induction false} ChompedEmptyLast(lines: seq<String>)
    requires lines != [] && lines[|lines| - 1] == []
    requires forall k :: 0 <= k < |lines| ==> '\n' !in lines[k]
    requires forall k :: 0 <= k < |lines| ==> lines[k] == [] || lines[k][|lines[k]| - 1] != '\r'
    ensures NonEmpty(Split(Chomp(JoinWith(lines, "\n")), NewLine)) == NonEmpty(lines)
  {
    var n := |lines|;
    var front := lines[..n - 1];
    assert lines == front + [[]];
    NonEmptyAppend(front, [[]]);
    if n == 1 {
      ChompKeeps([]);
    } else {
      JoinWithLast(lines, "\n");
      var t := JoinWith(front, "\n");
      JoinWithEndsWithoutCR(front);
      ChompLineBreak(t);
      assert JoinWith(lines, "\n") == t + "\n";
      LinesOfText(front);
    }
  }

  /** `chomp` leaves a text alone that does not end in a line break. */
  lemma {:induction false} ChompKeeps(t: String)
    requires t == [] || (t[|t| - 1] != '\n' && t[|t| - 1] != '\r')
    ensures Chomp(t) == t
  {
  }

  /** `chomp` removes one '\n' that does not follow a '\r'. */
  lemma {:induction false} ChompLineBreak(t: String)
    requires t == [] || t[|t| - 1] != '\r'
    ensures Chomp(t + "\n") == t
  {
    var s := t + "\n";
    if |t| >= 1 {
      assert s[|s| - 2] == t[|t| - 1];
    }
    assert s[..|s| - 1] == t;
  }

  /** The lines of a text that ends where its last line ends, empty ones aside. */
  lemma {:induction false} LinesOfText(lines: seq<String>)
    requires lines != [] && forall k :: 0 <= k < |lines| ==> '\n' !in lines[k]
    ensures NonEmpty(Split(JoinWith(lines, "\n"), NewLine)) == NonEmpty(lines)
  {
    var text := JoinWith(lines, "\n");
    FieldsOfJoin(lines, "\n");
    if text == [] {
      JoinWithEmpty(lines);
      assert NonEmpty(lines) == [];
    } else {
      NonEmptyOfDropTrailingEmpty(lines);
    }
  }

  lemma {:induction false} NonEmptyOfDropTrailingEmpty(lines: seq<String>)
    ensures NonEmpty(DropTrailingEmpty(lines)) == NonEmpty(lines)
  {
    var kept := DropTrailingEmpty(lines);
    var dropped := lines[|kept|..];
    assert lines == kept + dropped;
    NonEmptyAppend(kept, dropped);
    NonEmptyOfEmpty(dropped);
  }

  lemma {:induction false} NonEmptyOfEmpty(lines: seq<String>)
    requires forall k :: 0 <= k < |lines| ==> lines[k] == []
    ensures NonEmpty(lines) == []
  {
    if lines != [] {
      NonEmptyOfEmpty(lines[1..]);
    }
  }

  // ---------------------------------------------------------------- get_externals

  /** One `svn:externals` declaration block: the basename of its directory and its
      `[ext_dir, ext_repo]` lines. */
  datatype External = External(dir: String, repos: seq<seq<String>>)

  /** A block without " - " hands nil to `parse_external_repos`, whose `chomp` raises. */
  datatype ExternalsError = MissingSeparator(block: String)

  const BlockSeparator: String := "\n\n"
  const HeaderSeparator: String := " - "

  /** Every `[ext_dir, ext_repo]` entry has one or two parts. */
  predicate WellFormed(exts: seq<External>) {
    forall e | e in exts :: forall p | p in e.repos :: 1 <= |p| <= 2
  }

  /** One iteration of the `collect` in `get_externals`. */
  function ExternalOf(block: String, repo: String): (r: Result<External, ExternalsError>)
    ensures r.Failure? <==> IndexOf(block, HeaderSeparator).None?
    ensures r.Failure? ==> r.error == MissingSeparator(block)
    ensures r.Success? ==> forall p | p in r.value.repos :: 1 <= |p| <= 2
    ensures r.Success? ==> r.value.dir == "/" || '/' !in r.value.dir
  {
    var parts := SplitOnce(block, HeaderSeparator);
    if |parts| < 2 then
      Failure(MissingSeparator(block))
    else
      Success(External(Basename(DeleteAll(parts[0], repo)), ParseExternalRepos(parts[1])))
  }

  /** The `collect` over all blocks. */
  function ExternalsOf(blocks: seq<String>, repo: String): (r: Result<seq<External>, ExternalsError>)
    ensures r.Success? ==> |r.value| == |blocks| && WellFormed(r.value)
    ensures r.Success? ==> forall e | e in r.value :: e.dir == "/" || '/' !in e.dir
  {
    if blocks == [] then Success([])
    else
      match ExternalOf(blocks[0], repo)
      case Failure(e) => Failure(e)
      case Success(x) =>
        match ExternalsOf(blocks[1..], repo)
        case Failure(e) => Failure(e)
        case Success(xs) =>
          WellFormedCons(x, xs);
          Success([x] + xs)
  }

  lemma {:induction false} WellFormedCons(x: External, xs: seq<External>)
    requires forall p | p in x.repos :: 1 <= |p| <= 2
    requires x.dir == "/" || '/' !in x.dir
    requires WellFormed(xs) && forall e | e in xs :: e.dir == "/" || '/' !in e.dir
    ensures WellFormed([x] + xs)
    ensures forall e | e in [x] + xs :: e.dir == "/" || '/' !in e.dir
  {
  }

  /** Some block has no " - " */
  predicate SomeMissing(blocks: seq<String>) {
    exists k :: 0 <= k < |blocks| && IndexOf(blocks[k], HeaderSeparator).None?
  }

  lemma {:induction false} NoneMissingCons(blocks: seq<String>, k: nat)
    requires k + 1 <= |blocks| && IndexOf(blocks[0], HeaderSeparator).Some?
    requires !SomeMissing(blocks[1..][..k])
    ensures !SomeMissing(blocks[..k + 1])
  {
    var front, rest := blocks[..k + 1], blocks[1..][..k];
    forall j | 0 < j < |front|
      ensures IndexOf(front[j], HeaderSeparator).Some?
    {
      assert front[j] == rest[j - 1];
    }
  }

  /** The `collect` raises exactly when some block has no " - ", and then for the first such
      block. */
  lemma {:induction false} ExternalsOfRaises(blocks: seq<String>, repo: String)
    ensures ExternalsOf(blocks, repo).Failure? <==> SomeMissing(blocks)
    ensures ExternalsOf(blocks, repo).Failure? ==>
      exists k :: 0 <= k < |blocks| && ExternalsOf(blocks, repo).error == MissingSeparator(blocks[k]) &&
        !SomeMissing(blocks[..k])
  {
    if blocks != [] {
      var tail := blocks[1..];
      ExternalsOfRaises(tail, repo);
      ExternalsOfStep(blocks, repo);
      SomeMissingCons(blocks);
      if IndexOf(blocks[0], HeaderSeparator).None? {
        assert !SomeMissing(blocks[..0]);
      } else if ExternalsOf(tail, repo).Failure? {
        var k :| 0 <= k < |tail| && ExternalsOf(tail, repo).error == MissingSeparator(tail[k]) &&
          !SomeMissing(tail[..k]);
        assert blocks[k + 1] == tail[k];
        NoneMissingCons(blocks, k);
      }
    }
  }

  /** One step of the `collect`: the first block raises, or the rest decides. */
  lemma {:induction false} ExternalsOfStep(blocks: seq<String>, repo: String)
    requires blocks != []
    ensures ExternalsOf(blocks, repo).Failure? <==>
      IndexOf(blocks[0], HeaderSeparator).None? || ExternalsOf(blocks[1..], repo).Failure?
    ensures IndexOf(blocks[0], HeaderSeparator).None? ==>
      ExternalsOf(blocks, repo) == Failure(MissingSeparator(blocks[0]))
    ensures IndexOf(blocks[0], HeaderSeparator).Some? && ExternalsOf(blocks[1..], repo).Failure? ==>
      ExternalsOf(blocks, repo) == ExternalsOf(blocks[1..], repo)
  {
  }

  lemma {:induction false} SomeMissingCons(blocks: seq<String>)
    requires blocks != []
    ensures SomeMissing(blocks) <==>
      IndexOf(blocks[0], HeaderSeparator).None? || SomeMissing(blocks[1..])
  {
    var tail := blocks[1..];
    if SomeMissing(tail) {
      var k :| 0 <= k < |tail| && IndexOf(tail[k], HeaderSeparator).None?;
      assert blocks[k + 1] == tail[k];
    }
    if SomeMissing(blocks) {
      var k :| 0 <= k < |blocks| && IndexOf(blocks[k], HeaderSeparator).None?;
      if k > 0 {
        assert tail[k - 1] == blocks[k];
      }
    }
  }

  /** `get_externals`, given the output of `svn propget svn:externals -R <repo>`. */
  function GetExternals(listing: String, repo: String): (r: Result<seq<External>, ExternalsError>)
    ensures r.Success? ==> WellFormed(r.value)
    ensures r.Success? ==> forall e | e in r.value :: e.dir == "/" || '/' !in e.dir
  {
    ExternalsOf(NonEmpty(Split(Chomp(listing), BlockSeparator)), repo)
  }

  function Prepend(x: External, r: Result<seq<External>, ExternalsError>): Result<seq<External>, ExternalsError> {
    match r
    case Success(xs) => Success([x] + xs)
    case Failure(e) => Failure(e)
  }

  /** A block `<dir> - <lines>` followed by a blank line: its entry comes first, with the
      basename of `dir` once every occurrence of the repository URL is removed. */
  lemma {:induction false} GetExternalsFirstBlock(dir: String, body: String, rest: String, repo: String)
    requires CutsAfter(dir, HeaderSeparator)
    requires CutsAfter(dir + HeaderSeparator + body, BlockSeparator)
    requires rest != []
    ensures GetExternals(dir + HeaderSeparator + body + BlockSeparator + rest, repo) ==
      Prepend(External(Basename(DeleteAll(dir, repo)), ParseExternalRepos(body)), GetExternals(rest, repo))
  {
    var block := dir + HeaderSeparator + body;
    var front := block + BlockSeparator;
    var listing := front + rest;
    ChompKeepsHead(front, rest);
    var c := Chomp(rest);
    assert Chomp(listing) == block + BlockSeparator + c;
    SplitAfterCut(block, BlockSeparator, c);
    var others := Split(c, BlockSeparator);
    NonEmptyAppend([block], others);
    var blocks := [block] + NonEmpty(others);
    assert NonEmpty(Split(Chomp(listing), BlockSeparator)) == blocks;
    assert blocks[1..] == NonEmpty(others);
    IndexOfAfterCut(dir, HeaderSeparator, body);
    assert block[..|dir|] == dir && block[|dir| + |HeaderSeparator|..] == body;
    assert SplitOnce(block, HeaderSeparator) == [dir, body];
  }

  /** A listing made of one block `<dir> - <lines>` gives that one entry, whether the listing
      stops after the last line, after its line break, or after the blank line that
      `svn propget -R` prints after every value. */
  lemma {:induction false} GetExternalsLastBlock(dir: String, body: String, tail: String, repo: String)
    requires CutsAfter(dir, HeaderSeparator)
    requires forall j :: !OccursAt(dir + HeaderSeparator + body, BlockSeparator, j)
    requires body == [] || (body[|body| - 1] != '\n' && body[|body| - 1] != '\r')
    requires tail == [] || tail == "\n" || tail == "\n\n"
    ensures GetExternals(dir + HeaderSeparator + body + tail, repo) ==
      Success([External(Basename(DeleteAll(dir, repo)), ParseExternalRepos(body))])
  {
    var block := dir + HeaderSeparator + body;
    var last := if tail == "\n\n" then "\n" else [];
    var b := body + last;
    assert block[|block| - 1] == if body == [] then ' ' else body[|body| - 1];
    if tail == [] {
      ChompKeeps(block);
    } else if tail == "\n" {
      ChompLineBreak(block);
    } else {
      assert block + tail == block + "\n" + "\n";
      ChompLineBreak(block + "\n");
      NoBlockSeparatorAfter(block);
    }
    assert Chomp(block + tail) == dir + HeaderSeparator + b;
    SingleBlock(dir, b, repo);
    if last == [] {
      assert b == body;
    } else {
      ChompLineBreak(body);
      ChompKeeps(body);
      assert ParseExternalRepos(b) == ParseExternalRepos(body);
    }
  }

  /** A line break after a block that does not end in one makes no blank line. */
  lemma {:induction false} NoBlockSeparatorAfter(block: String)
    requires forall j :: !OccursAt(block, BlockSeparator, j)
    requires block != [] && block[|block| - 1] != '\n'
    ensures forall j :: !OccursAt(block + "\n", BlockSeparator, j)
  {
    var c := block + "\n";
    forall j
      ensures !OccursAt(c, BlockSeparator, j)
    {
      if 0 <= j && j + 2 <= |block| {
        assert block[j..j + 2] == c[j..j + 2];
        assert !OccursAt(block, BlockSeparator, j);
      } else if 0 <= j && j + 2 <= |c| {
        assert c[j..j + 2][0] == block[|block| - 1];
      }
    }
  }

  /** A chomped listing that is one block `<dir> - <b>`, with no blank line in it. */
  lemma {:induction false} SingleBlock(dir: String, b: String, repo: String)
    requires CutsAfter(dir, HeaderSeparator)
    requires forall j :: !OccursAt(dir + HeaderSeparator + b, BlockSeparator, j)
    ensures ExternalsOf(NonEmpty(Split(dir + HeaderSeparator + b, BlockSeparator)), repo) ==
      Success([External(Basename(DeleteAll(dir, repo)), ParseExternalRepos(b))])
  {
    var c := dir + HeaderSeparator + b;
    IndexOfSpec(c, BlockSeparator);
    assert IndexOf(c, BlockSeparator) == None;
    assert Split(c, BlockSeparator) == [c];
    assert NonEmpty([c]) == [c];
    IndexOfAfterCut(dir, HeaderSeparator, b);
    assert c[..|dir|] == dir && c[|dir| + |HeaderSeparator|..] == b;
    assert SplitOnce(c, HeaderSeparator) == [dir, b];
    var x := External(Basename(DeleteAll(dir, repo)), ParseExternalRepos(b));
    assert ExternalOf(c, repo) == Success(x);
    ExternalsOfSingle(c, repo);
  }

  lemma {:induction false} ExternalsOfSingle(block: String, repo: String)
    requires ExternalOf(block, repo).Success?
    ensures ExternalsOf([block], repo) == Success([ExternalOf(block, repo).value])
  {
    var x := ExternalOf(block, repo).value;
    assert [block][0] == block && [block][1..] == [];
    assert ExternalsOf([], repo) == Success([]);
    assert [x] + [] == [x];
  }

  /** A block without " - " makes the whole listing raise, whatever follows it. */
  lemma {:induction false} GetExternalsMissingSeparator(block: String, rest: String, repo: String)
    requires block != [] && forall j :: !OccursAt(block, HeaderSeparator, j)
    requires CutsAfter(block, BlockSeparator)
    requires rest != []
    ensures GetExternals(block + BlockSeparator + rest, repo) == Failure(MissingSeparator(block))
  {
    IndexOfSpec(block, HeaderSeparator);
    var front := block + BlockSeparator;
    ChompKeepsHead(front, rest);
    var c := Chomp(rest);
    SplitAfterCut(block, BlockSeparator, c);
    var others := Split(c, BlockSeparator);
    NonEmptyAppend([block], others);
    assert NonEmpty(Split(Chomp(front + rest), BlockSeparator)) == [block] + NonEmpty(others);
  }
}
