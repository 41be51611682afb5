/**
 * What running a well-nested body means: the block of an opener is found by
 * its matching `}`, a nested piece of code runs to completion before what
 * follows it, a returned label comes from a guard whose condition held,
 * and a `ReferenceError` names a condition the header does not bind, so
 * the bodies the compiler writes never throw one.
 */
module EvaluatorFacts {
  import opened Wrappers
  import opened LineGrammar
  import opened Emitter
  import opened Braces
  import opened EmitterFacts
  import opened Evaluator
  import opened Seqs

  lemma LevelCons(s: Stmt, ss: seq<Stmt>)
    ensures Level([s] + ss) == Level([s]) + Level(ss)
    ensures Level([s]) == if s.Open? then 1 else if s.Close? then -1 else 0
  {
    LevelConcat([s], ss);
    LevelSingle(s);
  }

  // ---------------------------------------------------------------------
  // Matching braces
  // ---------------------------------------------------------------------

  /** One statement in front of a piece that stays within the blocks open after it. */
  lemma NonnegCons(s: Stmt, ss: seq<Stmt>, base: int)
    requires base >= 0 && base + Level([s]) >= 0 && Nonneg(ss, base + Level([s]))
    ensures Nonneg([s] + ss, base)
  {
    NonnegSingle(s, base);
    NonnegConcat([s], ss, base);
  }

  /**
   * When the statements from `i` on close more blocks than the `open` ones,
   * the search finds a `}` before them, and everything up to it stays
   * inside the open blocks.
   */
  lemma {:induction false} MatchCloseFinds(ss: seq<Stmt>, i: nat, open: nat)
    requires 1 <= open && i < |ss|
    requires open + Level(ss[i..]) <= 0
    ensures MatchClose(ss, i, open).Some?
    ensures open + Level(ss[i..MatchClose(ss, i, open).value]) == 1
    ensures Nonneg(ss[i..MatchClose(ss, i, open).value], open - 1)
    decreases |ss| - i
  {
    var s := ss[i];
    assert Level(ss[i..]) == Level([s]) + Level(ss[i + 1..]) by {
      assert ss[i..] == [s] + ss[i + 1..];
      LevelCons(s, ss[i + 1..]);
    }
    LevelSingle(s);
    if s.Close? && open == 1 {
      assert MatchClose(ss, i, open) == Some(i);
      assert ss[i..i] == [];
    } else {
      MatchCloseFinds(ss, i + 1, open + Level([s]));
      FindsStep(ss, i, open);
    }
  }

  /** One step of the search, when the statement at `i` is not the `}` sought. */
  lemma FindsStep(ss: seq<Stmt>, i: nat, open: nat)
    requires 1 <= open && i < |ss| && !(ss[i].Close? && open == 1)
    requires open + Level([ss[i]]) >= 1
    requires MatchClose(ss, i + 1, open + Level([ss[i]])).Some?
    requires var j := MatchClose(ss, i + 1, open + Level([ss[i]])).value;
      open + Level([ss[i]]) + Level(ss[i + 1..j]) == 1 && Nonneg(ss[i + 1..j], open + Level([ss[i]]) - 1)
    ensures MatchClose(ss, i, open) == MatchClose(ss, i + 1, open + Level([ss[i]]))
    ensures var j := MatchClose(ss, i, open).value;
      open + Level(ss[i..j]) == 1 && Nonneg(ss[i..j], open - 1)
  {
    var s := ss[i];
    LevelSingle(s);
    var j := MatchClose(ss, i + 1, open + Level([s])).value;
    assert ss[i..j] == [s] + ss[i + 1..j];
    LevelCons(s, ss[i + 1..j]);
    NonnegCons(s, ss[i + 1..j], open - 1);
  }

  /** Searching past a piece that never closes the open blocks. */
  lemma {:induction false} MatchCloseSkip(ss: seq<Stmt>, i: nat, open: nat, b: seq<Stmt>)
    requires 1 <= open && i + |b| <= |ss|
    requires forall k :: 0 <= k < |b| ==> ss[i + k] == b[k]
    requires Nonneg(b, open - 1)
    ensures open + Level(b) >= 1
    ensures MatchClose(ss, i, open) == MatchClose(ss, i + |b|, open + Level(b))
    decreases |b|
  {
    NonnegEnds(b, open - 1);
    if b != [] {
      var s := b[0];
      SkipHead(b, open);
      assert ss[i] == s;
      LevelSingle(s);
      assert MatchClose(ss, i, open) == MatchClose(ss, i + 1, open + Level([s]));
      ShiftedAgree(ss, i, b);
      MatchCloseSkip(ss, i + 1, open + Level([s]), b[1..]);
    }
  }

  /** The first statement of a piece that never closes the `open` blocks. */
  lemma SkipHead(b: seq<Stmt>, open: nat)
    requires b != [] && 1 <= open && Nonneg(b, open - 1)
    ensures !(b[0].Close? && open == 1)
    ensures open + Level([b[0]]) >= 1
    ensures Nonneg(b[1..], open + Level([b[0]]) - 1)
    ensures Level(b) == Level([b[0]]) + Level(b[1..])
  {
    var s := b[0];
    assert b == [s] + b[1..];
    NonnegSplit([s], b[1..], open - 1);
    NonnegEnds([s], open - 1);
    LevelCons(s, b[1..]);
  }

  lemma ShiftedAgree(ss: seq<Stmt>, i: nat, b: seq<Stmt>)
    requires b != [] && i + |b| <= |ss|
    requires forall k :: 0 <= k < |b| ==> ss[i + k] == b[k]
    ensures forall k :: 0 <= k < |b[1..]| ==> ss[i + 1 + k] == b[1..][k]
  {
    forall k | 0 <= k < |b[1..]| ensures ss[i + 1 + k] == b[1..][k] {
      assert ss[i + (k + 1)] == b[k + 1];
    }
  }

  /** Statements after the matching `}` do not change where it is. */
  lemma {:induction false} MatchCloseExtend(ss: seq<Stmt>, r: seq<Stmt>, i: nat, open: nat)
    requires 1 <= open
    requires MatchClose(ss, i, open).Some?
    ensures MatchClose(ss + r, i, open) == MatchClose(ss, i, open)
    decreases |ss| - i
  {
    assert (ss + r)[i] == ss[i];
    match ss[i]
    case Open(_, _) => MatchCloseExtend(ss, r, i + 1, open + 1);
    case Guard(_, _, _) => MatchCloseExtend(ss, r, i + 1, open);
    case Close(_) =>
      if open > 1 {
        MatchCloseExtend(ss, r, i + 1, open - 1);
      }
  }

  /** What follows a well-nested prefix of a well-nested body is well nested. */
  lemma SuffixNested(x: seq<Stmt>, y: seq<Stmt>)
    requires Nested(x + y) && Level(x) == 0
    ensures Nested(y)
  {
    NonnegSplit(x, y, 0);
    LevelConcat(x, y);
  }

  /**
   * A well-nested body does not start with `}`, and what follows its first
   * statement stays within the blocks that statement opens.
   */
  lemma DecomposeHead(b: seq<Stmt>)
    requires Nested(b) && b != []
    ensures !b[0].Close?
    ensures Nonneg(b[1..], Level([b[0]])) && Level(b[1..]) == -Level([b[0]])
  {
    var s := b[0];
    assert b == [s] + b[1..];
    NonnegSplit([s], b[1..], 0);
    NonnegEnds([s], 0);
    LevelCons(s, b[1..]);
  }

  /**
   * A well-nested body starts with a guard followed by a well-nested body,
   * or with an opener whose block and whatever follows its `}` are both
   * well nested.
   */
  lemma Decompose(b: seq<Stmt>)
    requires Nested(b) && b != []
    ensures !b[0].Close?
    ensures b[0].Guard? ==> Nested(b[1..])
    ensures b[0].Open? ==> MatchClose(b, 1, 1).Some?
    ensures b[0].Open? ==> Nested(b[1..MatchClose(b, 1, 1).value])
    ensures b[0].Open? ==> Nested(b[MatchClose(b, 1, 1).value + 1..])
  {
    DecomposeHead(b);
    LevelSingle(b[0]);
    if b[0].Open? {
      DecomposeOpen(b);
    }
  }

  lemma DecomposeOpen(b: seq<Stmt>)
    requires Nested(b) && b != [] && b[0].Open?
    requires Nonneg(b[1..], 1) && Level(b[1..]) == -1
    ensures MatchClose(b, 1, 1).Some?
    ensures Nested(b[1..MatchClose(b, 1, 1).value])
    ensures Nested(b[MatchClose(b, 1, 1).value + 1..])
  {
    MatchCloseFinds(b, 1, 1);
    var j := MatchClose(b, 1, 1).value;
    var x := b[..j + 1];
    assert Level(x) == 0 by {
      HeadMiddleLast(b, j);
      LevelCons(b[0], b[1..j] + [b[j]]);
      LevelConcat(b[1..j], [b[j]]);
      LevelSingle(b[j]);
    }
    TakeDrop(b, j + 1);
    SuffixNested(x, b[j + 1..]);
  }

  // ---------------------------------------------------------------------
  // Running nested code
  // ---------------------------------------------------------------------

  /**
   * A well-nested piece of code followed by more code: the piece runs first,
   * and the rest runs only when the piece falls off its end.
   */
  lemma {:induction false} RunSeq(b: seq<Stmt>, r: seq<Stmt>, env: Scope)
    requires Nested(b)
    ensures Run(b + r, env) == if Run(b, env).Undefined? then Run(r, env) else Run(b, env)
    decreases |b|
  {
    if b == [] {
      assert b + r == r;
    } else {
      Decompose(b);
      assert (b + r)[0] == b[0];
      if b[0].Guard? {
        ConcatSlices(b, r, 1, 1);
        RunSeq(b[1..], r, env);
      } else {
        RunOpenFirst(b, r, env);
        RunSeq(b[MatchClose(b, 1, 1).value + 1..], r, env);
      }
    }
  }

  /** Running code that starts with a closed block of `b`, followed by `r`. */
  lemma RunOpenFirst(b: seq<Stmt>, r: seq<Stmt>, env: Scope)
    requires b != [] && b[0].Open? && MatchClose(b, 1, 1).Some?
    ensures var j := MatchClose(b, 1, 1).value;
      Run(b + r, env) ==
        match Eval(b[0].cond, env)
        case Unbound(n) => ReferenceError(n)
        case Fails => Run(b[j + 1..] + r, env)
        case Holds => if Run(b[1..j], env).Undefined? then Run(b[j + 1..] + r, env) else Run(b[1..j], env)
  {
    var j := MatchClose(b, 1, 1).value;
    MatchCloseExtend(b, r, 1, 1);
    ConcatSlices(b, r, 1, j);
    ConcatSlices(b, r, j + 1, j + 1);
    assert (b + r)[0] == b[0];
  }

  /**
   * `if (c) { inner }` followed by more code, with a well-nested `inner`: a
   * false condition skips the block, a true one runs it and carries on
   * after the `}` when the block returns nothing.
   */
  lemma RunBlock(t: nat, c: Cond, inner: seq<Stmt>, t': nat, r: seq<Stmt>, env: Scope)
    requires Nested(inner)
    ensures Run([Open(t, c)] + inner + [Close(t')] + r, env) ==
      match Eval(c, env)
      case Unbound(n) => ReferenceError(n)
      case Fails => Run(r, env)
      case Holds => if Run(inner, env).Undefined? then Run(r, env) else Run(inner, env)
  {
    var ss := [Open(t, c)] + inner + [Close(t')] + r;
    var j := |inner| + 1;
    MatchCloseSkip(ss, 1, 1, inner);
    assert ss[j] == Close(t');
    assert MatchClose(ss, 1, 1) == Some(j);
    assert ss[1..j] == inner;
    assert ss[j + 1..] == r;
  }

  /** `if (c) return "l"` followed by more code. */
  lemma RunGuard(t: nat, c: Cond, l: string, r: seq<Stmt>, env: Scope)
    ensures Run([Guard(t, c, l)] + r, env) ==
      match Eval(c, env)
      case Unbound(n) => ReferenceError(n)
      case Fails => Run(r, env)
      case Holds => Returned(l)
  {
    assert ([Guard(t, c, l)] + r)[1..] == r;
  }

  // ---------------------------------------------------------------------
  // Where an outcome comes from
  // ---------------------------------------------------------------------

  /** A guard that returns `l` under `env`. */
  predicate Fires(s: Stmt, env: Scope, l: string) {
    s.Guard? && s.result == l && Eval(s.cond, env) == Holds
  }

  /** A condition statement that reads `n`. */
  predicate Reads(s: Stmt, n: string) {
    !s.Close? && s.cond.name == n
  }

  /** A firing guard in a slice is a firing guard of the whole. */
  lemma SliceFires(ss: seq<Stmt>, a: nat, b: nat, env: Scope, l: string)
    requires a <= b <= |ss|
    ensures (exists i :: 0 <= i < b - a && Fires(ss[a..b][i], env, l)) ==>
      exists i :: 0 <= i < |ss| && Fires(ss[i], env, l)
  {
    if exists i :: 0 <= i < b - a && Fires(ss[a..b][i], env, l) {
      var i :| 0 <= i < b - a && Fires(ss[a..b][i], env, l);
      assert Fires(ss[a + i], env, l);
    }
  }

  /** A condition of a slice that reads `n` is a condition of the whole. */
  lemma SliceReads(ss: seq<Stmt>, a: nat, b: nat, n: string)
    requires a <= b <= |ss|
    ensures (exists i :: 0 <= i < b - a && Reads(ss[a..b][i], n)) ==>
      exists i :: 0 <= i < |ss| && Reads(ss[i], n)
  {
    if exists i :: 0 <= i < b - a && Reads(ss[a..b][i], n) {
      var i :| 0 <= i < b - a && Reads(ss[a..b][i], n);
      assert Reads(ss[a + i], n);
    }
  }

  /** A returned label is the label of a guard whose condition holds. */
  lemma {:induction false} ReturnedSource(ss: seq<Stmt>, env: Scope)
    ensures Run(ss, env).Returned? ==>
      exists i :: 0 <= i < |ss| && Fires(ss[i], env, Run(ss, env).className)
    decreases |ss|
  {
    if ss != [] && Run(ss, env).Returned? {
      var l := Run(ss, env).className;
      ReturnedSource(ss[1..], env);
      SliceFires(ss, 1, |ss|, env, l);
      if ss[0].Open? && MatchClose(ss, 1, 1).Some? {
        var j := MatchClose(ss, 1, 1).value;
        ReturnedSource(ss[1..j], env);
        ReturnedSource(ss[j + 1..], env);
        SliceFires(ss, 1, j, env, l);
        SliceFires(ss, j + 1, |ss|, env, l);
      }
      if ss[0].Guard? && Eval(ss[0].cond, env).Holds? {
        assert Fires(ss[0], env, ss[0].result);
      }
    }
  }

  /** A `ReferenceError` names a condition whose name the scope does not bind. */
  lemma {:induction false} ErrorSource(ss: seq<Stmt>, env: Scope)
    ensures Run(ss, env).ReferenceError? ==>
      Run(ss, env).name !in env && exists i :: 0 <= i < |ss| && Reads(ss[i], Run(ss, env).name)
    decreases |ss|
  {
    if ss != [] && Run(ss, env).ReferenceError? {
      var n := Run(ss, env).name;
      ErrorSource(ss[1..], env);
      SliceReads(ss, 1, |ss|, n);
      if ss[0].Open? && MatchClose(ss, 1, 1).Some? {
        var j := MatchClose(ss, 1, 1).value;
        ErrorSource(ss[1..j], env);
        ErrorSource(ss[j + 1..], env);
        SliceReads(ss, 1, j, n);
        SliceReads(ss, j + 1, |ss|, n);
      }
      if !ss[0].Close? && Eval(ss[0].cond, env).Unbound? {
        assert Reads(ss[0], ss[0].cond.name);
      }
    }
  }
}
