/**
 * The parts of Ruby's core `String` and `File` behaviour that gitstart's text parsers
 * rely on: `chomp`, `split` (string pattern, with and without a limit, and awk-style),
 * `gsub` with a literal pattern and an empty replacement, `File.basename` and `File.join`.
 * Strings are sequences of characters.
 */
module RubyText {
  import opened Wrappers

  type String = seq<char>

  /** The characters that awk-style `split` treats as blanks (Ruby's `ascii_isspace`). */
  predicate IsSpace(c: char) {
    c == ' ' || c == '\t' || c == '\n' || c == '\U{B}' || c == '\U{C}' || c == '\r'
  }

  predicate NoSpace(s: String) {
    forall k :: 0 <= k < |s| ==> !IsSpace(s[k])
  }

  predicate AllSpace(s: String) {
    forall k :: 0 <= k < |s| ==> IsSpace(s[k])
  }

  predicate NoNewline(s: String) {
    forall k :: 0 <= k < |s| ==> s[k] != '\n'
  }

  // ---------------------------------------------------------------- chomp

  /** `String#chomp` with the default record separator: removes one trailing line terminator,
      that is "\r\n", "\n" or "\r". */
  function Chomp(s: String): (r: String)
    ensures |r| <= |s| && r == s[..|r|]
    ensures s[|r|..] in ["", "\n", "\r", "\r\n"]
    ensures |r| < |s| <==> |s| > 0 && (s[|s| - 1] == '\n' || s[|s| - 1] == '\r')
    ensures |s| >= 2 && s[|s| - 2] == '\r' && s[|s| - 1] == '\n' ==> |r| == |s| - 2
  {
    if |s| >= 2 && s[|s| - 2] == '\r' && s[|s| - 1] == '\n' then
      assert s[|s| - 2..] == "\r\n";
      s[..|s| - 2]
    else if |s| >= 1 && s[|s| - 1] == '\n' then
      assert s[|s| - 1..] == "\n";
      s[..|s| - 1]
    else if |s| >= 1 && s[|s| - 1] == '\r' then
      assert s[|s| - 1..] == "\r";
      s[..|s| - 1]
    else
      assert s[|s|..] == "";
      s
  }

  /** Chomp only looks at the end: text ahead of a non-empty tail that does not end in '\r'
      is kept as it is. */
  lemma {:induction false} ChompKeepsHead(a: String, b: String)
    requires b != []
    requires a == [] || a[|a| - 1] != '\r'
    ensures Chomp(a + b) == a + Chomp(b)
  {
    var s := a + b;
    var n := |s|;
    assert s[n - 1] == b[|b| - 1];
    if |b| >= 2 {
      assert s[n - 2] == b[|b| - 2];
      if b[|b| - 2] == '\r' && b[|b| - 1] == '\n' {
        assert s[..n - 2] == a + b[..|b| - 2];
      } else if b[|b| - 1] == '\n' || b[|b| - 1] == '\r' {
        assert s[..n - 1] == a + b[..|b| - 1];
      }
    } else if b[0] == '\n' || b[0] == '\r' {
      assert s[..n - 1] == a;
      assert b[..0] == [];
      if n >= 2 {
        assert s[n - 2] == a[|a| - 1];
      }
    }
  }

  // ---------------------------------------------------------------- literal search

  /** `pat` occurs in `s` starting at index `j`. */
  predicate OccursAt(s: String, pat: String, j: int) {
    0 <= j && j + |pat| <= |s| && s[j..j + |pat|] == pat
  }

  /** The leftmost occurrence of `pat` in `s`, if any (Ruby's `rb_memsearch`). */
  function IndexOf(s: String, pat: String): Option<nat>
    decreases |s|
  {
    if |s| < |pat| then None
    else if s[..|pat|] == pat then Some(0)
    else
      match IndexOf(s[1..], pat)
      case None => None
      case Some(i) => Some(i + 1)
  }

  /** `IndexOf` finds an occurrence with none before it, and finds nothing only when there is
      no occurrence at all. */
  lemma {:induction false} IndexOfSpec(s: String, pat: String)
    ensures IndexOf(s, pat).Some? ==> OccursAt(s, pat, IndexOf(s, pat).value)
    ensures IndexOf(s, pat).Some? ==> forall j :: 0 <= j < IndexOf(s, pat).value ==> !OccursAt(s, pat, j)
    ensures IndexOf(s, pat).None? ==> forall j :: !OccursAt(s, pat, j)
    decreases |s|
  {
    if |s| < |pat| {
    } else if s[..|pat|] == pat {
    } else {
      var tail := s[1..];
      IndexOfSpec(tail, pat);
      assert !OccursAt(s, pat, 0);
      match IndexOf(tail, pat)
      case None =>
        forall j
          ensures !OccursAt(s, pat, j)
        {
          if 1 <= j {
            OccursAtTail(s, pat, j);
          }
        }
      case Some(i) =>
        OccursAtTail(s, pat, i + 1);
        forall j | 0 <= j < i + 1
          ensures !OccursAt(s, pat, j)
        {
          if 1 <= j {
            OccursAtTail(s, pat, j);
          }
        }
    }
  }

  /** An occurrence after the first character is an occurrence in the rest of the text. */
  lemma {:induction false} OccursAtTail(s: String, pat: String, j: int)
    requires s != [] && 1 <= j
    ensures OccursAt(s, pat, j) <==> OccursAt(s[1..], pat, j - 1)
  {
    if j + |pat| <= |s| {
      assert s[1..][j - 1..j - 1 + |pat|] == s[j..j + |pat|];
    }
  }

  /** The occurrence `IndexOf` finds lies inside the text. */
  lemma {:induction false} IndexOfInside(s: String, pat: String, i: nat)
    requires IndexOf(s, pat) == Some(i)
    ensures i + |pat| <= |s|
  {
    IndexOfSpec(s, pat);
  }

  /** `s` is cut right after `h` when `sep` follows it: no earlier occurrence of `sep` starts
      inside `h` or overlaps the boundary. */
  predicate CutsAfter(h: String, sep: String) {
    forall j :: 0 <= j < |h| ==> !OccursAt(h + sep + [], sep, j)
  }

  /** Under `CutsAfter`, the leftmost occurrence of `sep` in `h + sep + t` is right after `h`. */
  lemma {:induction false} IndexOfAfterCut(h: String, sep: String, t: String)
    requires CutsAfter(h, sep)
    ensures IndexOf(h + sep + t, sep) == Some(|h|)
  {
    var s := h + sep + t;
    assert OccursAt(s, sep, |h|) by {
      assert s[|h|..|h| + |sep|] == sep;
    }
    forall j | 0 <= j < |h|
      ensures !OccursAt(s, sep, j)
    {
      if OccursAt(s, sep, j) {
        assert (h + sep + [])[j..j + |sep|] == s[j..j + |sep|];
        assert OccursAt(h + sep + [], sep, j);
      }
    }
    IndexOfSpec(s, sep);
  }

  // ---------------------------------------------------------------- split with a string pattern

  /** All fields of `s` around the leftmost, non-overlapping occurrences of `sep`, empty ones
      included. */
  function Fields(s: String, sep: String): (r: seq<String>)
    requires |sep| > 0
    ensures |r| >= 1
    decreases |s|
  {
    match IndexOf(s, sep)
    case None => [s]
    case Some(i) =>
      IndexOfInside(s, sep, i);
      [s[..i]] + Fields(s[i + |sep|..], sep)
  }

  /** The inverse of splitting: the parts with `sep` between each two of them. */
  function JoinWith(parts: seq<String>, sep: String): (r: String)
    ensures |parts| == 1 ==> r == parts[0]
  {
    if parts == [] then []
    else if |parts| == 1 then parts[0]
    else parts[0] + sep + JoinWith(parts[1..], sep)
  }

  /** One step of splitting: the first field, the separator, then the fields of the rest. */
  lemma {:induction false} FieldsStep(s: String, sep: String, i: nat)
    requires |sep| > 0 && IndexOf(s, sep) == Some(i)
    ensures i + |sep| <= |s|
    ensures s == s[..i] + sep + s[i + |sep|..]
    ensures Fields(s, sep) == [s[..i]] + Fields(s[i + |sep|..], sep)
  {
    IndexOfSpec(s, sep);
    assert s[i..i + |sep|] == sep;
    assert s == s[..i] + s[i..i + |sep|] + s[i + |sep|..];
  }

  lemma {:induction false} JoinWithCons(head: String, rest: seq<String>, sep: String)
    requires rest != []
    ensures JoinWith([head] + rest, sep) == head + sep + JoinWith(rest, sep)
  {
    assert ([head] + rest)[1..] == rest;
  }

  /** Putting the fields back together with the separator gives the original text. */
  lemma {:induction false} JoinFields(s: String, sep: String)
    requires |sep| > 0
    ensures JoinWith(Fields(s, sep), sep) == s
    decreases |s|
  {
    var found := IndexOf(s, sep);
    if found.Some? {
      var i := found.value;
      FieldsStep(s, sep, i);
      var tail := s[i + |sep|..];
      JoinFields(tail, sep);
      JoinWithCons(s[..i], Fields(tail, sep), sep);
    }
  }

  /** No field contains the separator. */
  lemma {:induction false} FieldsAvoidSeparator(s: String, sep: String)
    requires |sep| > 0
    ensures forall k, j :: 0 <= k < |Fields(s, sep)| ==> !OccursAt(Fields(s, sep)[k], sep, j)
    decreases |s|
  {
    IndexOfSpec(s, sep);
    match IndexOf(s, sep)
    case None =>
    case Some(i) =>
      var tail := s[i + |sep|..];
      FieldsAvoidSeparator(tail, sep);
      var f := Fields(s, sep);
      assert f == [s[..i]] + Fields(tail, sep);
      forall j
        ensures !OccursAt(s[..i], sep, j)
      {
        if OccursAt(s[..i], sep, j) {
          assert s[..i][j..j + |sep|] == s[j..j + |sep|];
          assert OccursAt(s, sep, j);
        }
      }
  }

  /** For a one-character separator, splitting undoes joining. */
  lemma {:induction false} FieldsOfJoin(parts: seq<String>, sep: String)
    requires |sep| == 1 && parts != []
    requires forall k :: 0 <= k < |parts| ==> sep[0] !in parts[k]
    ensures Fields(JoinWith(parts, sep), sep) == parts
  {
    var s := JoinWith(parts, sep);
    if |parts| == 1 {
      assert s == parts[0];
      assert forall j :: 0 <= j < |s| ==> s[j] != sep[0];
      IndexOfSpec(s, sep);
      assert IndexOf(s, sep) == None;
    } else {
      var rest := JoinWith(parts[1..], sep);
      assert CutsAfter(parts[0], sep) by {
        forall j | 0 <= j < |parts[0]|
          ensures !OccursAt(parts[0] + sep + [], sep, j)
        {
          assert (parts[0] + sep + [])[j] == parts[0][j];
        }
      }
      IndexOfAfterCut(parts[0], sep, rest);
      assert s[|parts[0]| + 1..] == rest;
      assert s[..|parts[0]|] == parts[0];
      FieldsOfJoin(parts[1..], sep);
    }
  }

  /** A separator found right after the first field splits it off. */
  lemma {:induction false} FieldsAfterCut(h: String, sep: String, t: String)
    requires |sep| > 0 && CutsAfter(h, sep)
    ensures Fields(h + sep + t, sep) == [h] + Fields(t, sep)
  {
    var s := h + sep + t;
    IndexOfAfterCut(h, sep, t);
    assert s[..|h|] == h;
    assert s[|h| + |sep|..] == t;
  }

  /** The trailing empty strings of `parts` removed. */
  function DropTrailingEmpty(parts: seq<String>): (r: seq<String>)
    ensures |r| <= |parts| && r == parts[..|r|]
    ensures r == [] || r[|r| - 1] != []
    ensures forall k :: |r| <= k < |parts| ==> parts[k] == []
  {
    if parts == [] then []
    else if parts[|parts| - 1] == [] then DropTrailingEmpty(parts[..|parts| - 1])
    else parts
  }

  /** `String#split(sep)` with a String pattern and no limit: an empty string yields no
      fields, otherwise the fields with the trailing empty ones dropped. */
  function Split(s: String, sep: String): (r: seq<String>)
    requires |sep| > 0
    ensures s == [] ==> r == []
    ensures r == [] || r[|r| - 1] != []
    ensures s != [] ==> |r| <= |Fields(s, sep)| && r == Fields(s, sep)[..|r|]
    ensures s != [] ==> forall k :: |r| <= k < |Fields(s, sep)| ==> Fields(s, sep)[k] == []
  {
    if s == [] then [] else DropTrailingEmpty(Fields(s, sep))
  }

  /** Splitting off a non-empty first field. */
  lemma {:induction false} SplitAfterCut(h: String, sep: String, t: String)
    requires |sep| > 0 && CutsAfter(h, sep) && h != []
    ensures Split(h + sep + t, sep) == [h] + Split(t, sep)
  {
    FieldsAfterCut(h, sep, t);
    var fs := Fields(t, sep);
    if t == [] {
      assert IndexOf(t, sep) == None;
      assert fs == [[]];
      assert DropTrailingEmpty([h] + fs) == DropTrailingEmpty([h]);
    } else {
      DropTrailingEmptyCons(h, fs);
    }
  }

  lemma {:induction false} DropTrailingEmptyCons(h: String, parts: seq<String>)
    requires h != []
    ensures DropTrailingEmpty([h] + parts) == [h] + DropTrailingEmpty(parts)
    decreases |parts|
  {
    if parts != [] && parts[|parts| - 1] == [] {
      assert ([h] + parts)[..|parts|] == [h] + parts[..|parts| - 1];
      DropTrailingEmptyCons(h, parts[..|parts| - 1]);
    }
  }

  /** `String#split(sep, 2)` with a String pattern: the text before the leftmost occurrence
      and everything after it, or the whole text when `sep` does not occur. */
  function SplitOnce(s: String, sep: String): (r: seq<String>)
    requires |sep| > 0
    ensures r == [] <==> s == []
    ensures |r| <= 2
    ensures |r| == 1 ==> r[0] == s && forall j :: !OccursAt(s, sep, j)
    ensures |r| == 2 ==> s == r[0] + sep + r[1]
    ensures |r| == 2 ==> forall j :: 0 <= j < |r[0]| ==> !OccursAt(s, sep, j)
  {
    if s == [] then []
    else
      IndexOfSpec(s, sep);
      match IndexOf(s, sep)
      case None => [s]
      case Some(i) =>
        assert s == s[..i] + sep + s[i + |sep|..] by { assert s[i..i + |sep|] == sep; }
        [s[..i], s[i + |sep|..]]
  }

  // ---------------------------------------------------------------- gsub(pattern, '')

  /** `String#gsub(pat, '')` with a String pattern: every leftmost, non-overlapping occurrence
      of `pat` removed. An empty pattern matches between characters and, replaced by the empty
      string, leaves the text unchanged. */
  function DeleteAll(s: String, pat: String): (r: String)
    ensures |r| <= |s|
    decreases |s|
  {
    if pat == [] then s
    else
      match IndexOf(s, pat)
      case None => s
      case Some(i) =>
        IndexOfInside(s, pat, i);
        s[..i] + DeleteAll(s[i + |pat|..], pat)
  }

  /** Deleting a pattern that is empty or absent changes nothing. */
  lemma {:induction false} DeleteAllAbsent(s: String, pat: String)
    requires pat == [] || forall j :: !OccursAt(s, pat, j)
    ensures DeleteAll(s, pat) == s
  {
    if pat != [] {
      IndexOfSpec(s, pat);
    }
  }

  function Concat(parts: seq<String>): String {
    if parts == [] then [] else parts[0] + Concat(parts[1..])
  }

  /** Deleting every occurrence keeps exactly the fields between the occurrences. */
  lemma {:induction false} DeleteAllKeepsFields(s: String, pat: String)
    requires |pat| > 0
    ensures DeleteAll(s, pat) == Concat(Fields(s, pat))
    decreases |s|
  {
    match IndexOf(s, pat)
    case None =>
    case Some(i) =>
      DeleteAllStep(s, pat, i);
      var rest := s[i + |pat|..];
      DeleteAllKeepsFields(rest, pat);
      FieldsStep(s, pat, i);
      ConcatCons(s[..i], Fields(rest, pat));
  }

  lemma {:induction false} DeleteAllStep(s: String, pat: String, i: nat)
    requires |pat| > 0 && IndexOf(s, pat) == Some(i)
    ensures i + |pat| <= |s|
    ensures DeleteAll(s, pat) == s[..i] + DeleteAll(s[i + |pat|..], pat)
  {
    IndexOfInside(s, pat, i);
    var rest := s[i + |pat|..];
    assert pat != [];
    assert DeleteAll(s, pat) == s[..i] + DeleteAll(rest, pat);
  }

  lemma {:induction false} ConcatCons(head: String, parts: seq<String>)
    ensures Concat([head] + parts) == head + Concat(parts)
  {
    assert ([head] + parts)[1..] == parts;
  }

  // ---------------------------------------------------------------- awk-style split

  /** The text after its leading blanks. */
  function SkipSpace(s: String): (r: String)
    ensures |r| <= |s| && r == s[|s| - |r|..]
    ensures AllSpace(s[..|s| - |r|])
    ensures r == [] || !IsSpace(r[0])
    decreases |s|
  {
    if s != [] && IsSpace(s[0]) then
      var r := SkipSpace(s[1..]);
      assert s[1..][..|s| - 1 - |r|] == s[1..|s| - |r|];
      r
    else s
  }

  /** The longest prefix of `s` without blanks. */
  function TakeWord(s: String): (r: String)
    ensures |r| <= |s| && r == s[..|r|]
    ensures NoSpace(r)
    ensures |r| == |s| || IsSpace(s[|r|])
    decreases |s|
  {
    if s != [] && !IsSpace(s[0]) then
      var r := TakeWord(s[1..]);
      [s[0]] + r
    else []
  }

  /** A non-empty run of non-blank characters. */
  predicate IsWord(w: String) {
    w != [] && NoSpace(w)
  }

  /** `String#split` with no argument (awk style): the maximal runs of non-blank characters. */
  function Words(s: String): (r: seq<String>)
    ensures forall x | x in r :: IsWord(x)
    ensures r == [] <==> AllSpace(s)
    decreases |s|
  {
    var t := SkipSpace(s);
    if t == [] then
      assert s[..|s|] == s;
      []
    else
      var w := TakeWord(t);
      assert !IsSpace(t[0]) && s[|s| - |t|] == t[0];
      [w] + Words(t[|w|..])
  }

  /** `gaps[0] + ws[0] + gaps[1] + ... + ws[n - 1] + gaps[n]`: words laid out between runs of
      blanks. */
  function Interleave(gaps: seq<String>, ws: seq<String>): (r: String)
    requires |gaps| == |ws| + 1
    ensures |r| >= |gaps[0]|
    decreases |ws|
  {
    if ws == [] then gaps[0] else gaps[0] + ws[0] + Interleave(gaps[1..], ws[1..])
  }

  /** Runs of blanks that can surround words: every run is blank, and each run between two words
      is non-empty (the runs before the first and after the last word may be empty). */
  predicate Separating(gaps: seq<String>) {
    && (forall i | 0 <= i < |gaps| :: AllSpace(gaps[i]))
    && (forall i | 0 < i < |gaps| - 1 :: gaps[i] != [])
  }

  /** The runs of blanks of `s` around its words. */
  function Gaps(s: String): (r: seq<String>)
    ensures |r| == |Words(s)| + 1
    decreases |s|
  {
    var t := SkipSpace(s);
    if t == [] then [s]
    else
      var w := TakeWord(t);
      assert !IsSpace(t[0]) && s[|s| - |t|] == t[0];
      [s[..|s| - |t|]] + Gaps(t[|w|..])
  }

  /** One word of `s`: its leading blanks, the word, and the rest of the text. */
  lemma {:induction false} WordsStep(s: String)
    requires SkipSpace(s) != []
    ensures !IsSpace(SkipSpace(s)[0]) && TakeWord(SkipSpace(s)) != []
    ensures Words(s) == [TakeWord(SkipSpace(s))] + Words(SkipSpace(s)[|TakeWord(SkipSpace(s))|..])
    ensures Gaps(s) == [s[..|s| - |SkipSpace(s)|]] + Gaps(SkipSpace(s)[|TakeWord(SkipSpace(s))|..])
    ensures Words(s)[0] == TakeWord(SkipSpace(s))
    ensures Gaps(s)[1] == Gaps(SkipSpace(s)[|TakeWord(SkipSpace(s))|..])[0]
  {
    var t := SkipSpace(s);
    var w := TakeWord(t);
    WordsStepOf(s, t, w);
    ConsAt(w, Words(t[|w|..]));
    ConsAt(s[..|s| - |t|], Gaps(t[|w|..]));
  }

  /** The elements of a sequence with one element put in front. */
  lemma {:induction false} ConsAt<T>(x: T, r: seq<T>)
    ensures ([x] + r)[0] == x
    ensures r != [] ==> ([x] + r)[1] == r[0]
  {
  }

  /** `WordsStep`, with the blank-free text `t` and its first word `w` named. */
  lemma {:induction false} WordsStepOf(s: String, t: String, w: String)
    requires t == SkipSpace(s) && t != [] && w == TakeWord(t)
    ensures !IsSpace(t[0]) && w != []
    ensures Words(s) == [w] + Words(t[|w|..])
    ensures Gaps(s) == [s[..|s| - |t|]] + Gaps(t[|w|..])
  {
    WordOfStart(t);
    WordsUnfold(s, t, w);
    GapsUnfold(s, t, w);
  }

  /** A text that starts with a non-blank starts with a word. */
  lemma {:induction false} WordOfStart(t: String)
    requires t != [] && !IsSpace(t[0])
    ensures TakeWord(t) != []
  {
  }

  lemma {:induction false} WordsUnfold(s: String, t: String, w: String)
    requires t == SkipSpace(s) && t != [] && w == TakeWord(t)
    ensures Words(s) == [w] + Words(t[|w|..])
  {
  }

  lemma {:induction false} GapsUnfold(s: String, t: String, w: String)
    requires t == SkipSpace(s) && t != [] && w == TakeWord(t)
    ensures Gaps(s) == [s[..|s| - |t|]] + Gaps(t[|w|..])
  {
  }

  lemma {:induction false} SkipSpaceOfBlanks(g: String, t: String)
    requires AllSpace(g)
    requires t == [] || !IsSpace(t[0])
    ensures SkipSpace(g + t) == t
    decreases |g|
  {
    if g != [] {
      assert (g + t)[1..] == g[1..] + t;
      SkipSpaceOfBlanks(g[1..], t);
    }
  }

  lemma {:induction false} TakeWordOfWord(w: String, t: String)
    requires NoSpace(w)
    requires t == [] || IsSpace(t[0])
    ensures TakeWord(w + t) == w
    decreases |w|
  {
    if w != [] {
      assert (w + t)[1..] == w[1..] + t;
      TakeWordOfWord(w[1..], t);
      assert w == [w[0]] + w[1..];
    }
  }

  /** Dropping the run before the first word keeps the runs separating. */
  lemma {:induction false} SeparatingTail(gaps: seq<String>)
    requires Separating(gaps) && |gaps| >= 2
    ensures Separating(gaps[1..])
  {
  }

  /** Words laid out between separating runs of blanks are exactly what awk-style split gives
      back. */
  lemma {:induction false} WordsOfInterleave(gaps: seq<String>, ws: seq<String>)
    requires |gaps| == |ws| + 1 && Separating(gaps)
    requires forall i | 0 <= i < |ws| :: IsWord(ws[i])
    ensures Words(Interleave(gaps, ws)) == ws
    decreases |ws|
  {
    if ws == [] {
      assert AllSpace(gaps[0]);
    } else {
      var g, w, gs, ws' := gaps[0], ws[0], gaps[1..], ws[1..];
      assert AllSpace(g) && IsWord(w);
      SeparatingTail(gaps);
      var rest := Interleave(gs, ws');
      InterleaveUnfold(gaps, ws);
      InterleaveStartsBlank(gs, ws');
      WordsOfCons(g, w, rest);
      WordsOfInterleave(gs, ws');
      assert Words(Interleave(gaps, ws)) == [w] + ws';
      HeadTail(ws);
    }
  }

  /** A word between leading blanks and a text that starts with a blank is the first word. */
  lemma {:induction false} WordsOfCons(g: String, w: String, rest: String)
    requires AllSpace(g) && IsWord(w) && (rest == [] || IsSpace(rest[0]))
    ensures Words(g + (w + rest)) == [w] + Words(rest)
  {
    SkipSpaceOfBlanks(g, w + rest);
    TakeWordOfWord(w, rest);
    assert (w + rest)[|w|..] == rest;
    WordsStep(g + (w + rest));
  }

  lemma {:induction false} InterleaveUnfold(gaps: seq<String>, ws: seq<String>)
    requires |gaps| == |ws| + 1 && ws != []
    ensures Interleave(gaps, ws) == gaps[0] + (ws[0] + Interleave(gaps[1..], ws[1..]))
  {
  }

  /** What follows a word in a laid-out text is empty or begins with a blank. */
  lemma {:induction false} InterleaveStartsBlank(gaps: seq<String>, ws: seq<String>)
    requires |gaps| == |ws| + 1 && AllSpace(gaps[0]) && (ws != [] ==> gaps[0] != [])
    ensures var r := Interleave(gaps, ws); r == [] || IsSpace(r[0])
  {
    if ws != [] {
      assert Interleave(gaps, ws)[0] == gaps[0][0];
    }
  }

  /** A text that begins with a blank and holds a word has a non-empty run of blanks in front. */
  lemma {:induction false} FirstGapOfBlank(s: String)
    requires s != [] && IsSpace(s[0]) && Words(s) != []
    ensures Gaps(s)[0] != []
  {
    WordsStep(s);
  }

  /** Laying out one more word in front of a laid-out text. */
  lemma {:induction false} InterleaveCons(g: String, w: String, gs: seq<String>, ws: seq<String>)
    requires |gs| == |ws| + 1 && AllSpace(g) && Separating(gs) && (ws != [] ==> gs[0] != [])
    ensures Separating([g] + gs)
    ensures Interleave([g] + gs, [w] + ws) == g + (w + Interleave(gs, ws))
  {
    assert ([g] + gs)[1..] == gs && ([w] + ws)[1..] == ws;
  }

  lemma {:induction false} HeadTail<T>(s: seq<T>)
    requires s != []
    ensures s == [s[0]] + s[1..]
  {
  }

  lemma {:induction false} SplitAt<T>(s: seq<T>, i: nat)
    requires i <= |s|
    ensures s == s[..i] + s[i..]
  {
  }

  /** Every text is its words laid out between its runs of blanks, and those runs separate. */
  lemma {:induction false} WordsDecompose(s: String)
    ensures Separating(Gaps(s))
    ensures Interleave(Gaps(s), Words(s)) == s
    decreases |s|
  {
    var t := SkipSpace(s);
    if t == [] {
      assert s[..|s|] == s;
    } else {
      var g := s[..|s| - |t|];
      assert AllSpace(g);
      SplitAt(s, |s| - |t|);
      WordsStep(s);
      var w := TakeWord(t);
      var rest := t[|w|..];
      SplitAt(t, |w|);
      if Words(rest) != [] {
        assert rest[0] == t[|w|];
        FirstGapOfBlank(rest);
      }
      WordsDecompose(rest);
      InterleaveCons(g, w, Gaps(rest), Words(rest));
      assert Interleave(Gaps(s), Words(s)) == g + (w + rest);
    }
  }

  /** `String#split(' ', 2)`: awk style with a limit of two. Leading blanks are skipped; the
      first word is cut at the first blank; the second part is the rest of the text after the
      blanks that follow it, kept even when it is empty (a positive limit keeps trailing empty
      fields), so a text of blanks only gives one empty field. */
  function AwkSplit2(s: String): (r: seq<String>)
    ensures r == [] <==> s == []
    ensures |r| <= 2
    ensures r != [] && Words(s) == [] ==> r == [[]]
    ensures r != [] && Words(s) != [] ==> r[0] == Words(s)[0]
    ensures |r| == 2 ==> r[1] == [] || !IsSpace(r[1][0])
    ensures |r| == 1 && Words(s) != [] ==> s == Gaps(s)[0] + r[0]
    ensures |r| == 2 ==> Gaps(s)[1] != [] && s == Gaps(s)[0] + (r[0] + (Gaps(s)[1] + r[1]))
  {
    if s == [] then []
    else
      var t := SkipSpace(s);
      if t == [] then [[]]
      else
        var w := TakeWord(t);
        var rest := t[|w|..];
        AwkLayout(s, t, w, rest);
        if rest == [] then [w] else [w, SkipSpace(rest)]
  }

  /** Where the first word and the text after it sit among the runs of blanks of `s`. */
  lemma {:induction false} AwkLayout(s: String, t: String, w: String, rest: String)
    requires t == SkipSpace(s) && t != [] && w == TakeWord(t) && rest == t[|w|..]
    ensures Words(s) != [] && Words(s)[0] == w
    ensures rest == [] ==> s == Gaps(s)[0] + w
    ensures rest != [] ==> Gaps(s)[1] != [] && s == Gaps(s)[0] + (w + (Gaps(s)[1] + SkipSpace(rest)))
  {
    FirstWordLayout(s, t, w, rest);
    if rest != [] {
      assert IsSpace(rest[0]);
      FirstGap(rest);
      var g, w', g1 := Gaps(s)[0], Words(s)[0], Gaps(s)[1];
      assert s == g + (w' + (g1 + SkipSpace(rest)));
    }
  }

  lemma {:induction false} FirstWordLayout(s: String, t: String, w: String, rest: String)
    requires t == SkipSpace(s) && t != [] && w == TakeWord(t) && rest == t[|w|..]
    ensures Words(s) != [] && Words(s)[0] == w && Gaps(s)[1] == Gaps(rest)[0]
    ensures s == Gaps(s)[0] + (w + rest)
    ensures rest == [] ==> s == Gaps(s)[0] + w
  {
    WordsStep(s);
    assert Words(s)[0] == w;
    assert Gaps(s)[1] == Gaps(rest)[0];
    FirstGap(s);
    assert t[..|w|] == w;
    SplitAt(t, |w|);
    assert s == Gaps(s)[0] + (w + rest);
    if rest == [] {
      assert w + rest == w;
    }
  }

  /** The first run of blanks is what `SkipSpace` drops; it is empty only when the text does not
      begin with a blank. */
  lemma {:induction false} FirstGap(s: String)
    ensures s == Gaps(s)[0] + SkipSpace(s)
    ensures s != [] && IsSpace(s[0]) ==> Gaps(s)[0] != []
  {
    var t := SkipSpace(s);
    SplitAt(s, |s| - |t|);
    if t != [] {
      assert !IsSpace(t[0]) && s[|s| - |t|] == t[0];
    }
  }

  lemma {:induction false} SkipSpaceOfWordStart(s: String)
    requires s == [] || !IsSpace(s[0])
    ensures SkipSpace(s) == s
  {
  }

  lemma {:induction false} SkipSpaceTwice(s: String)
    ensures SkipSpace(SkipSpace(s)) == SkipSpace(s)
  {
    SkipSpaceOfWordStart(SkipSpace(s));
  }

  /** The second part of `split(' ', 2)` splits into exactly the remaining words, and there is
      no second part only when the text holds at most one word. */
  lemma {:induction false} AwkSplit2Rest(s: String)
    ensures |AwkSplit2(s)| == 2 ==> Words(AwkSplit2(s)[1]) == Words(s)[1..]
    ensures |AwkSplit2(s)| < 2 ==> |Words(s)| <= 1
  {
    if s != [] {
      var t := SkipSpace(s);
      if t != [] {
        var w := TakeWord(t);
        var rest := t[|w|..];
        assert Words(s) == [w] + Words(rest);
        if rest != [] {
          var u := SkipSpace(rest);
          SkipSpaceTwice(rest);
          assert Words(u) == Words(rest);
        } else {
          assert Words(rest) == [];
        }
      }
    }
  }

  // ---------------------------------------------------------------- File

  /** `File.join(a, b)` for the paths this program builds. */
  function PathJoin(a: String, b: String): (r: String)
    ensures |r| == |a| + 1 + |b|
  {
    a + "/" + b
  }

  /** Joining under a slash-free last component loses nothing: the joined paths are equal
      exactly when both parts are. */
  lemma {:induction false} PathJoinApart(a1: String, b1: String, a2: String, b2: String)
    requires '/' !in b1 && '/' !in b2
    ensures PathJoin(a1, b1) == PathJoin(a2, b2) <==> a1 == a2 && b1 == b2
  {
    var r1 := PathJoin(a1, b1);
    var r2 := PathJoin(a2, b2);
    if r1 == r2 {
      assert r1[|a1|] == '/' && r2[|a2|] == '/';
      if |b1| != |b2| {
        assert false;
      }
      assert a1 == r1[..|a1|] && a2 == r2[..|a2|];
      assert b1 == r1[|a1| + 1..] && b2 == r2[|a2| + 1..];
    }
  }

  /** The text without its trailing slashes. */
  function TrimSlashes(p: String): (r: String)
    ensures |r| <= |p| && r == p[..|r|]
    ensures forall k :: |r| <= k < |p| ==> p[k] == '/'
    ensures r == [] || r[|r| - 1] != '/'
  {
    if p != [] && p[|p| - 1] == '/' then TrimSlashes(p[..|p| - 1]) else p
  }

  /** The text after its last slash. */
  function AfterLastSlash(q: String): (r: String)
    ensures |r| <= |q| && r == q[|q| - |r|..]
    ensures '/' !in r
    ensures |r| == |q| || q[|q| - |r| - 1] == '/'
  {
    if q == [] then []
    else if q[|q| - 1] == '/' then []
    else
      var r := AfterLastSlash(q[..|q| - 1]);
      assert q[..|q| - 1][|q| - 1 - |r|..] == q[|q| - 1 - |r|..|q| - 1];
      r + [q[|q| - 1]]
  }

  /** `File.basename(p)`: the last component of `p` once trailing slashes are gone; "/" for a
      path made of slashes only and "" for the empty path. */
  function Basename(p: String): (r: String)
    ensures p == [] <==> r == []
    ensures r == "/" <==> p != [] && forall k :: 0 <= k < |p| ==> p[k] == '/'
    ensures r != "/" ==> '/' !in r
    ensures r != [] && r != "/" ==>
      var q := TrimSlashes(p); |r| <= |q| && q[|q| - |r|..] == r && (|r| == |q| || q[|q| - |r| - 1] == '/')
  {
    if p == [] then []
    else
      var q := TrimSlashes(p);
      if q == [] then "/"
      else
        var r := AfterLastSlash(q);
        assert r != [];
        assert r[|r| - 1] == q[|q| - 1];
        r
  }

  /** A component without slashes is its own basename. */
  lemma {:induction false} BasenameOfComponent(c: String)
    requires c != [] && '/' !in c
    ensures Basename(c) == c
  {
  }

  /** `File.basename` is idempotent. */
  lemma {:induction false} BasenameTwice(p: String)
    ensures Basename(Basename(p)) == Basename(p)
  {
    var b := Basename(p);
    if b != [] && b != "/" {
      BasenameOfComponent(b);
    }
  }

  /** Everything up to the last slash that is followed by a component is discarded: the
      basename of a nested path is the basename of its tail. */
  lemma {:induction false} BasenameOfNested(a: String, b: String)
    requires exists k :: 0 <= k < |b| && b[k] != '/'
    ensures Basename(a + "/" + b) == Basename(b)
  {
    var p := a + "/" + b;
    var qb := TrimSlashes(b);
    TrimSlashesOfJoin(a, b);
    var q := TrimSlashes(p);
    assert q == a + "/" + qb;
    AfterLastSlashOfJoin(a, qb);
  }

  lemma {:induction false} TrimSlashesOfJoin(a: String, b: String)
    requires exists k :: 0 <= k < |b| && b[k] != '/'
    ensures TrimSlashes(a + "/" + b) == a + "/" + TrimSlashes(b)
    ensures TrimSlashes(b) != []
    decreases |b|
  {
    var p := a + "/" + b;
    if b[|b| - 1] == '/' {
      var b' := b[..|b| - 1];
      var k :| 0 <= k < |b| && b[k] != '/';
      assert b'[k] == b[k];
      assert p[..|p| - 1] == a + "/" + b';
      TrimSlashesOfJoin(a, b');
    }
  }

  lemma {:induction false} AfterLastSlashOfJoin(a: String, q: String)
    requires q != [] && q[|q| - 1] != '/'
    ensures AfterLastSlash(a + "/" + q) == AfterLastSlash(q)
    decreases |q|
  {
    var p := a + "/" + q;
    var q' := q[..|q| - 1];
    var p' := a + "/" + q';
    assert p[|p| - 1] == q[|q| - 1];
    assert p[..|p| - 1] == p';
    AfterLastSlashStep(p);
    AfterLastSlashStep(q);
    if q' == [] || q'[|q'| - 1] == '/' {
      assert p'[|p'| - 1] == '/';
      AfterLastSlashEmpty(p');
      AfterLastSlashEmpty(q');
    } else {
      AfterLastSlashOfJoin(a, q');
    }
  }

  lemma {:induction false} AfterLastSlashStep(q: String)
    requires q != [] && q[|q| - 1] != '/'
    ensures AfterLastSlash(q) == AfterLastSlash(q[..|q| - 1]) + [q[|q| - 1]]
  {
  }

  lemma {:induction false} AfterLastSlashEmpty(q: String)
    requires q == [] || q[|q| - 1] == '/'
    ensures AfterLastSlash(q) == []
  {
  }
}
