/**
 * `Gitstart::UI`: an indentation counter in front of an optional output sink. The sink is
 * the sequence of lines written to it, one element per `puts` of the underlying IO.
 */
module Console {
  import opened RubyText

  /** The observable state of a UI object: whether it has an IO at all, its verbose flag, the
      current indentation level and everything written so far. */
  datatype UiState = UiState(hasIo: bool, verbose: bool, level: nat, written: seq<String>)

  /** `@indent_string * n` with the indent string "\t". */
  function Tabs(n: nat): (r: String)
    ensures |r| == n
    ensures forall i | 0 <= i < n :: r[i] == '\t'
  {
    if n == 0 then [] else Tabs(n - 1) + ['\t']
  }

  /** Each message behind the same prefix, in order. */
  function Prefixed(prefix: String, msgs: seq<String>): (r: seq<String>)
    ensures |r| == |msgs|
    ensures forall i | 0 <= i < |msgs| :: r[i] == prefix + msgs[i]
  {
    if msgs == [] then []
    else Prefixed(prefix, msgs[..|msgs| - 1]) + [prefix + msgs[|msgs| - 1]]
  }

  /** What one `puts(*args)` writes: nothing without an IO, one empty line without
      arguments, and otherwise one line per argument behind `level` tabs. */
  function Emitted(u: UiState, args: seq<String>): (r: seq<String>)
    ensures !u.hasIo ==> r == []
    ensures u.hasIo && args == [] ==> r == [""]
    ensures u.hasIo && args != [] ==>
      |r| == |args| && forall i | 0 <= i < |args| :: r[i] == Tabs(u.level) + args[i]
  {
    if !u.hasIo then []
    else if args == [] then [""]
    else Prefixed(Tabs(u.level), args)
  }

  /** The state after `puts(*args)`: only the output grows. */
  function Put(u: UiState, args: seq<String>): (r: UiState)
    ensures r.hasIo == u.hasIo && r.verbose == u.verbose && r.level == u.level
    ensures r.written == u.written + Emitted(u, args)
  {
    u.(written := u.written + Emitted(u, args))
  }

  /** The state after `vputs(*args)`. */
  function VPut(u: UiState, args: seq<String>): (r: UiState)
    ensures !u.verbose ==> r == u
    ensures u.verbose ==> r == Put(u, args)
  {
    if u.verbose then Put(u, args) else u
  }

  /** The state after `indent`. */
  function Indented(u: UiState): (r: UiState)
    ensures r.level == u.level + 1
    ensures r == u.(level := r.level)
  {
    u.(level := u.level + 1)
  }

  /** The state after `unindent`: the level goes down by one but never below zero. */
  function Unindented(u: UiState): (r: UiState)
    ensures u.level == 0 ==> r == u
    ensures u.level > 0 ==> r.level + 1 == u.level
    ensures r == u.(level := r.level)
  {
    if u.level > 0 then u.(level := u.level - 1) else u
  }

  /** `unindent` undoes `indent`. */
  lemma {:induction false} UnindentAfterIndent(u: UiState)
    ensures Unindented(Indented(u)) == u
  {
  }

  /** `unindent` at level zero changes nothing, so a run of them never goes negative and
      always lands at zero. */
  lemma {:induction false} UnindentedMany(u: UiState, k: nat)
    ensures UnindentedTimes(u, k).level == if k <= u.level then u.level - k else 0
    ensures UnindentedTimes(u, k) == u.(level := UnindentedTimes(u, k).level)
  {
    if k > 0 {
      UnindentedMany(u, k - 1);
    }
  }

  function UnindentedTimes(u: UiState, k: nat): UiState {
    if k == 0 then u else Unindented(UnindentedTimes(u, k - 1))
  }

  lemma {:induction false} PrefixedAppend(prefix: String, a: seq<String>, b: seq<String>)
    ensures Prefixed(prefix, a + b) == Prefixed(prefix, a) + Prefixed(prefix, b)
  {
    if b == [] {
      assert a + b == a;
    } else {
      var b' := b[..|b| - 1];
      assert (a + b)[..|a + b| - 1] == a + b';
      PrefixedAppend(prefix, a, b');
    }
  }

  /** One more line behind the same prefix extends a run of prefixed lines. */
  lemma {:induction false} PutAfterPrefixed(u: UiState, before: seq<String>, msgs: seq<String>, x: String)
    requires u.hasIo
    requires u.written == before + Prefixed(Tabs(u.level), msgs)
    ensures Put(u, [x]).written == before + Prefixed(Tabs(u.level), msgs + [x])
  {
    var t := Tabs(u.level);
    assert (msgs + [x])[..|msgs|] == msgs;
    assert Prefixed(t, msgs + [x]) == Prefixed(t, msgs) + [t + x];
    assert Emitted(u, [x]) == [t + x];
    assert (before + Prefixed(t, msgs)) + [t + x] == before + (Prefixed(t, msgs) + [t + x]);
  }

  /** Two `puts` calls with arguments write what one call with all the arguments writes. */
  lemma {:induction false} PutTwice(u: UiState, a: seq<String>, b: seq<String>)
    requires a != [] && b != []
    ensures Put(Put(u, a), b) == Put(u, a + b)
  {
    if u.hasIo {
      PrefixedAppend(Tabs(u.level), a, b);
    }
  }

  /** A UI object. Its IO and verbose flag are fixed at construction. */
  class UI {
    const hasIo: bool
    const verbose: bool
    var indentLevel: nat
    var written: seq<String>

    function State(): UiState
      reads this
    {
      UiState(hasIo, verbose, indentLevel, written)
    }

    /** `UI.new(io, verbose)`: level zero and nothing written. */
    constructor(hasIo: bool, verbose: bool)
      ensures State() == UiState(hasIo, verbose, 0, [])
    {
      this.hasIo := hasIo;
      this.verbose := verbose;
      indentLevel := 0;
      written := [];
    }

    method Indent()
      modifies this
      ensures State() == Indented(old(State()))
    {
      indentLevel := indentLevel + 1;
    }

    method Unindent()
      modifies this
      ensures State() == Unindented(old(State()))
    {
      if indentLevel > 0 {
        indentLevel := indentLevel - 1;
      }
    }

    method Puts(args: seq<String>)
      modifies this
      ensures State() == Put(old(State()), args)
    {
      if !hasIo {
        return;
      }
      if args == [] {
        written := written + [""];
        return;
      }
      var i := 0;
      while i < |args|
        invariant 0 <= i <= |args|
        invariant indentLevel == old(indentLevel)
        invariant written == old(written) + Prefixed(Tabs(indentLevel), args[..i])
      {
        assert args[..i + 1][..i] == args[..i];
        written := written + [Tabs(indentLevel) + args[i]];
        i := i + 1;
      }
      assert args[..i] == args;
    }

    method VPuts(args: seq<String>)
      modifies this
      ensures State() == VPut(old(State()), args)
    {
      if verbose {
        Puts(args);
      }
    }
  }
}
