/**
 * A flat reading of a body, independent of how `Run` walks it: a guard is
 * reached when the condition of every opener still open around it holds,
 * and the body returns the label of the first reached guard whose own
 * condition holds, or `undefined` when there is none.
 */
module Reach {
  import opened Wrappers
  import opened Emitter
  import opened Braces
  import opened Evaluator
  import opened EvaluatorFacts
  import opened Seqs

  /** The opener at `k` is still open at `i`: the statements between them never close it. */
  predicate Encloses(ss: seq<Stmt>, k: nat, i: nat)
    requires k < i <= |ss|
  {
    ss[k].Open? && Nonneg(ss[k + 1..i], 0)
  }

  /** Every opener around position `i` has a condition that holds. */
  predicate Reached(ss: seq<Stmt>, i: nat, env: Scope)
    requires i <= |ss|
  {
    forall k :: 0 <= k < i && Encloses(ss, k, i) ==> Eval(ss[k].cond, env) == Holds
  }

  /** A reached guard whose condition holds. */
  predicate Hit(ss: seq<Stmt>, i: nat, env: Scope)
    requires i < |ss|
  {
    ss[i].Guard? && Eval(ss[i].cond, env) == Holds && Reached(ss, i, env)
  }

  /** The first hit at or after `from`, or `|ss|` when there is none. */
  function FirstHit(ss: seq<Stmt>, env: Scope, from: nat): (h: nat)
    requires from <= |ss|
    ensures from <= h <= |ss|
    ensures h < |ss| ==> Hit(ss, h, env)
    ensures forall i :: from <= i < h ==> !Hit(ss, i, env)
    decreases |ss| - from
  {
    if from == |ss| then |ss|
    else if Hit(ss, from, env) then from
    else FirstHit(ss, env, from + 1)
  }

  /** Every condition of the body reads a name the scope binds. */
  predicate Bound(ss: seq<Stmt>, env: Scope) {
    forall i :: 0 <= i < |ss| && !ss[i].Close? ==> ss[i].cond.name in env
  }

  /** `h` is the position of the first hit (`|ss|` for none). */
  predicate IsFirst(ss: seq<Stmt>, env: Scope, h: nat) {
    h <= |ss| && (h < |ss| ==> Hit(ss, h, env)) && forall i :: 0 <= i < h ==> !Hit(ss, i, env)
  }

  /** What returning at the first hit `h` gives. */
  function HitOutcome(ss: seq<Stmt>, h: nat): Outcome {
    if h < |ss| && ss[h].Guard? then Returned(ss[h].result) else Undefined
  }

  lemma FirstUnique(ss: seq<Stmt>, env: Scope, h: nat, h': nat)
    requires IsFirst(ss, env, h) && IsFirst(ss, env, h')
    ensures h == h'
  {
  }

  // ---------------------------------------------------------------------
  // Looking at a slice
  // ---------------------------------------------------------------------

  /** Whether an opener encloses a position depends only on the statements between them. */
  lemma EnclosesSlice(ss: seq<Stmt>, a: nat, b: nat, k: nat, i: nat)
    requires a <= k < i <= b <= |ss|
    ensures Encloses(ss, k, i) <==> Encloses(ss[a..b], k - a, i - a)
  {
    assert ss[a..b][k - a] == ss[k];
    SliceOfSlice(ss, a, b, k - a + 1, i - a);
  }

  /** The openers before `a` around position `i` all hold. */
  predicate OuterHolds(ss: seq<Stmt>, a: nat, i: nat, env: Scope)
    requires a <= i <= |ss|
  {
    forall k :: 0 <= k < a && Encloses(ss, k, i) ==> Eval(ss[k].cond, env) == Holds
  }

  /** Reaching a position of a slice: the openers before the slice, then those inside it. */
  lemma ReachedSlice(ss: seq<Stmt>, a: nat, b: nat, i: nat, env: Scope)
    requires a <= i < b <= |ss|
    ensures Reached(ss, i, env) <==> OuterHolds(ss, a, i, env) && Reached(ss[a..b], i - a, env)
    ensures Hit(ss, i, env) <==> OuterHolds(ss, a, i, env) && Hit(ss[a..b], i - a, env)
  {
    assert ss[a..b][i - a] == ss[i];
    forall k | a <= k < i
      ensures Encloses(ss, k, i) <==> Encloses(ss[a..b], k - a, i - a)
    {
      EnclosesSlice(ss, a, b, k, i);
    }
    if Reached(ss[a..b], i - a, env) {
      forall k | a <= k < i && Encloses(ss, k, i) ensures Eval(ss[k].cond, env) == Holds {
        assert Encloses(ss[a..b], k - a, i - a);
        assert ss[a..b][k - a] == ss[k];
      }
    }
    if Reached(ss, i, env) {
      forall k' | 0 <= k' < i - a && Encloses(ss[a..b], k', i - a)
        ensures Eval(ss[a..b][k'].cond, env) == Holds
      {
        assert Encloses(ss, k' + a, i);
        assert ss[a..b][k'] == ss[k' + a];
      }
    }
  }

  // ---------------------------------------------------------------------
  // The three places a position can be in
  // ---------------------------------------------------------------------

  /** After a leading guard, nothing is enclosed by what comes before. */
  lemma HitsAfterGuard(ss: seq<Stmt>, env: Scope, i: nat)
    requires 1 <= i < |ss| && ss[0].Guard?
    ensures Hit(ss, i, env) <==> Hit(ss[1..], i - 1, env)
  {
    assert !Encloses(ss, 0, i);
    ReachedSlice(ss, 1, |ss|, i, env);
    assert ss[1..|ss|] == ss[1..];
  }

  /** Inside the block of a leading opener, that opener is open. */
  lemma HitsInBlock(ss: seq<Stmt>, j: nat, env: Scope, i: nat)
    requires 1 <= i < j < |ss| && ss[0].Open? && Nested(ss[1..j])
    ensures Hit(ss, i, env) <==> Eval(ss[0].cond, env) == Holds && Hit(ss[1..j], i - 1, env)
  {
    var inner := ss[1..j];
    assert ss[1..i] == inner[..i - 1];
    assert inner == inner[..i - 1] + inner[i - 1..];
    NonnegSplit(inner[..i - 1], inner[i - 1..], 0);
    assert Encloses(ss, 0, i);
    ReachedSlice(ss, 1, j, i, env);
  }

  /** The `}` at `j` takes the level of the statements from `a` up to it one lower. */
  lemma ClosedAt(ss: seq<Stmt>, a: nat, j: nat, i: nat)
    requires a <= j < i <= |ss| && ss[j].Close?
    ensures PrefixLevel(ss[a..i], j - a + 1) == Level(ss[a..j]) - 1
  {
    TakeOfSlice(ss, a, i, j - a + 1);
    SliceSnoc(ss, a, j);
    LevelConcat(ss[a..j], [ss[j]]);
    LevelSingle(ss[j]);
  }

  /** A `}` met when no block is open from `a` on closes one too many. */
  lemma ClosedBefore(ss: seq<Stmt>, a: nat, j: nat, i: nat)
    requires a <= j < i <= |ss| && ss[j].Close? && Level(ss[a..j]) <= 0
    ensures !Nonneg(ss[a..i], 0)
  {
    ClosedAt(ss, a, j, i);
    assert 0 + PrefixLevel(ss[a..i], j - a + 1) < 0;
  }

  /** In a well-nested block, no suffix opens more than it closes. */
  lemma SuffixLevel(ss: seq<Stmt>, j: nat, k: nat)
    requires 0 < k < j <= |ss| && Nested(ss[1..j])
    ensures Level(ss[k + 1..j]) <= 0
  {
    var inner := ss[1..j];
    TakeDrop(inner, k);
    NonnegSplit(inner[..k], inner[k..], 0);
    NonnegEnds(inner[..k], 0);
    LevelConcat(inner[..k], inner[k..]);
    DropOfSlice(ss, 1, j, k);
  }

  /** Past the `}` at `j` of a leading opener, no opener up to it is still open. */
  lemma NotEnclosedPast(ss: seq<Stmt>, j: nat, k: nat, i: nat)
    requires k <= j < i <= |ss| && ss[0].Open? && ss[j].Close? && Nested(ss[1..j])
    ensures !Encloses(ss, k, i)
  {
    if k == 0 {
      ClosedBefore(ss, 1, j, i);
    } else if k < j {
      SuffixLevel(ss, j, k);
      ClosedBefore(ss, k + 1, j, i);
    }
  }

  /** Up to the `}` at `j`, nothing is hit when the leading opener fails or its block has no hit. */
  lemma NoHitThroughBlock(ss: seq<Stmt>, j: nat, env: Scope)
    requires j < |ss| && ss[0].Open? && ss[j].Close? && Nested(ss[1..j])
    requires Eval(ss[0].cond, env) != Holds || forall i :: 0 <= i < j - 1 ==> !Hit(ss[1..j], i, env)
    ensures forall i :: 0 <= i <= j && i < |ss| ==> !Hit(ss, i, env)
  {
    forall i | 0 <= i <= j && i < |ss| ensures !Hit(ss, i, env) {
      if 1 <= i < j {
        HitsInBlock(ss, j, env, i);
      }
    }
  }

  /** Past the `}` at `j` of a leading opener, no opener up to it constrains a position. */
  lemma OuterPast(ss: seq<Stmt>, j: nat, env: Scope, i: nat)
    requires j < i < |ss| && ss[0].Open? && ss[j].Close? && Nested(ss[1..j])
    ensures OuterHolds(ss, j + 1, i, env)
  {
    forall k | 0 <= k < j + 1 ensures !Encloses(ss, k, i) {
      NotEnclosedPast(ss, j, k, i);
    }
  }

  lemma HitsAfterBlock(ss: seq<Stmt>, j: nat, env: Scope, i: nat)
    requires j < i < |ss| && ss[0].Open? && ss[j].Close? && Nested(ss[1..j])
    ensures Hit(ss, i, env) <==> Hit(ss[j + 1..], i - j - 1, env)
  {
    OuterPast(ss, j, env, i);
    ReachedSlice(ss, j + 1, |ss|, i, env);
    assert ss[j + 1..|ss|] == ss[j + 1..];
  }

  // ---------------------------------------------------------------------
  // Run returns at the first hit
  // ---------------------------------------------------------------------

  lemma BoundSlice(ss: seq<Stmt>, a: nat, b: nat, env: Scope)
    requires a <= b <= |ss| && Bound(ss, env)
    ensures Bound(ss[a..b], env)
  {
    forall i | 0 <= i < b - a && !ss[a..b][i].Close? ensures ss[a..b][i].cond.name in env {
      assert ss[a..b][i] == ss[a + i];
    }
  }

  lemma {:induction false} RunHit(ss: seq<Stmt>, env: Scope, h: nat)
    requires Nested(ss) && Bound(ss, env) && IsFirst(ss, env, h)
    ensures Run(ss, env) == HitOutcome(ss, h)
    decreases |ss|, 2
  {
    if ss != [] {
      Decompose(ss);
      assert ss[0].cond.name in env;
      if ss[0].Guard? {
        RunAfterGuard(ss, env, h);
      } else {
        var j := MatchClose(ss, 1, 1).value;
        BoundSlice(ss, 1, j, env);
        BoundSlice(ss, j + 1, |ss|, env);
        if Eval(ss[0].cond, env) == Holds {
          var hi := FirstHit(ss[1..j], env, 0);
          RunHit(ss[1..j], env, hi);
          if hi < j - 1 {
            RunReturnsInBlock(ss, j, env, h, hi);
          } else {
            RunFallsThrough(ss, j, env, h, hi);
          }
        } else {
          RunSkipsBlock(ss, j, env, h);
        }
      }
    }
  }

  lemma RunAfterGuard(ss: seq<Stmt>, env: Scope, h: nat)
    requires ss != [] && ss[0].Guard? && Nested(ss[1..]) && Bound(ss, env) && IsFirst(ss, env, h)
    requires ss[0].cond.name in env
    ensures Run(ss, env) == HitOutcome(ss, h)
    decreases |ss|, 1
  {
    if Eval(ss[0].cond, env) != Holds {
      assert !Hit(ss, 0, env);
      forall i | 0 <= i < h - 1 ensures !Hit(ss[1..], i, env) {
        HitsAfterGuard(ss, env, i + 1);
      }
      if h < |ss| {
        HitsAfterGuard(ss, env, h);
      }
      BoundSlice(ss, 1, |ss|, env);
      RunHit(ss[1..], env, h - 1);
    } else {
      assert Hit(ss, 0, env);
    }
  }

  lemma RunSkipsBlock(ss: seq<Stmt>, j: nat, env: Scope, h: nat)
    requires ss != [] && ss[0].Open? && MatchClose(ss, 1, 1) == Some(j)
    requires Nested(ss[1..j]) && Nested(ss[j + 1..]) && Bound(ss[j + 1..], env) && IsFirst(ss, env, h)
    requires Eval(ss[0].cond, env) == Fails
    ensures Run(ss, env) == HitOutcome(ss, h)
    decreases |ss|, 1
  {
    NoHitThroughBlock(ss, j, env);
    RunInRest(ss, j, env, h);
  }

  lemma RunReturnsInBlock(ss: seq<Stmt>, j: nat, env: Scope, h: nat, hi: nat)
    requires ss != [] && ss[0].Open? && MatchClose(ss, 1, 1) == Some(j)
    requires Nested(ss[1..j]) && IsFirst(ss, env, h)
    requires Eval(ss[0].cond, env) == Holds
    requires hi < j - 1 && hi == FirstHit(ss[1..j], env, 0)
    requires Run(ss[1..j], env) == HitOutcome(ss[1..j], hi)
    ensures Run(ss, env) == HitOutcome(ss, h)
  {
    HitsInBlock(ss, j, env, hi + 1);
    forall i | 0 <= i < hi + 1 ensures !Hit(ss, i, env) {
      if 1 <= i {
        HitsInBlock(ss, j, env, i);
      }
    }
    FirstUnique(ss, env, h, hi + 1);
    assert ss[1..j][hi] == ss[hi + 1];
  }

  lemma RunFallsThrough(ss: seq<Stmt>, j: nat, env: Scope, h: nat, hi: nat)
    requires ss != [] && ss[0].Open? && MatchClose(ss, 1, 1) == Some(j)
    requires Nested(ss[1..j]) && Nested(ss[j + 1..]) && Bound(ss[j + 1..], env) && IsFirst(ss, env, h)
    requires Eval(ss[0].cond, env) == Holds
    requires hi == j - 1 && hi == FirstHit(ss[1..j], env, 0)
    requires Run(ss[1..j], env) == HitOutcome(ss[1..j], hi)
    ensures Run(ss, env) == HitOutcome(ss, h)
    decreases |ss|, 1
  {
    NoHitThroughBlock(ss, j, env);
    RunInRest(ss, j, env, h);
  }

  /** With no hit up to the `}` at `j`, the first hit is the first hit after it. */
  lemma RunInRest(ss: seq<Stmt>, j: nat, env: Scope, h: nat)
    requires ss != [] && ss[0].Open? && MatchClose(ss, 1, 1) == Some(j)
    requires Nested(ss[1..j]) && Nested(ss[j + 1..]) && Bound(ss[j + 1..], env) && IsFirst(ss, env, h)
    requires forall i :: 0 <= i <= j && i < |ss| ==> !Hit(ss, i, env)
    requires Run(ss, env) == Run(ss[j + 1..], env)
    ensures Run(ss, env) == HitOutcome(ss, h)
    decreases |ss|, 0
  {
    FirstAfterBlock(ss, j, env, h);
    RunHit(ss[j + 1..], env, h - j - 1);
  }

  lemma FirstAfterBlock(ss: seq<Stmt>, j: nat, env: Scope, h: nat)
    requires ss != [] && ss[0].Open? && MatchClose(ss, 1, 1) == Some(j)
    requires Nested(ss[1..j]) && IsFirst(ss, env, h)
    requires forall i :: 0 <= i <= j && i < |ss| ==> !Hit(ss, i, env)
    ensures j < h && IsFirst(ss[j + 1..], env, h - j - 1)
    ensures HitOutcome(ss[j + 1..], h - j - 1) == HitOutcome(ss, h)
  {
    NoHitBeforeFirst(ss, j, env, h, ss[j + 1..]);
    if h < |ss| {
      HitsAfterBlock(ss, j, env, h);
      assert ss[j + 1..][h - j - 1] == ss[h];
    }
  }

  lemma NoHitBeforeFirst(ss: seq<Stmt>, j: nat, env: Scope, h: nat, rest: seq<Stmt>)
    requires j < h <= |ss| && ss[0].Open? && ss[j].Close? && Nested(ss[1..j])
    requires forall i :: 0 <= i < h ==> !Hit(ss, i, env)
    requires rest == ss[j + 1..]
    ensures forall i :: 0 <= i < h - j - 1 ==> !Hit(rest, i, env)
  {
    forall i | 0 <= i < h - j - 1 ensures !Hit(rest, i, env) {
      HitsAfterBlock(ss, j, env, i + j + 1);
    }
  }

  /**
   * On a well-nested body whose conditions read only bound names, running
   * returns the label of the first reached guard whose condition holds,
   * and `undefined` when there is none.
   */
  lemma RunIsFirstHit(ss: seq<Stmt>, env: Scope)
    requires Nested(ss) && Bound(ss, env)
    ensures Run(ss, env) == HitOutcome(ss, FirstHit(ss, env, 0))
  {
    RunHit(ss, env, FirstHit(ss, env, 0));
  }
}
