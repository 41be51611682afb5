/**
 * The brace structure of an emitted body. An opener `if (c) {` opens a
 * block, a `}` line closes one and a guarded return does neither; the body
 * is well nested when no prefix closes more blocks than it opened and the
 * whole body closes all it opened.
 */
module Braces {
  import opened Emitter

  datatype Kind = OpenKind | GuardKind | CloseKind

  function KindOf(s: Stmt): Kind {
    match s
    case Open(_, _) => OpenKind
    case Guard(_, _, _) => GuardKind
    case Close(_) => CloseKind
  }

  /** The number of statements of kind `k`. */
  function Count(ss: seq<Stmt>, k: Kind): (n: nat)
    ensures n <= |ss|
  {
    if ss == [] then 0
    else Count(ss[..|ss| - 1], k) + (if KindOf(ss[|ss| - 1]) == k then 1 else 0)
  }

  lemma {:induction false} CountConcat(a: seq<Stmt>, b: seq<Stmt>, k: Kind)
    ensures Count(a + b, k) == Count(a, k) + Count(b, k)
    decreases |b|
  {
    if b != [] {
      var b0 := b[..|b| - 1];
      assert (a + b)[..|a + b| - 1] == a + b0;
      assert (a + b)[|a + b| - 1] == b[|b| - 1];
      CountConcat(a, b0, k);
    } else {
      assert a + b == a;
    }
  }

  lemma CountSingle(s: Stmt, k: Kind)
    ensures Count([s], k) == if KindOf(s) == k then 1 else 0
  {
    assert [s][..0] == [];
  }

  /** Blocks left open at the end of `ss`: openers minus closing lines. */
  function Level(ss: seq<Stmt>): int {
    Count(ss, OpenKind) - Count(ss, CloseKind)
  }

  lemma LevelConcat(a: seq<Stmt>, b: seq<Stmt>)
    ensures Level(a + b) == Level(a) + Level(b)
  {
    CountConcat(a, b, OpenKind);
    CountConcat(a, b, CloseKind);
  }

  /** The level after the first `i` statements. */
  function PrefixLevel(ss: seq<Stmt>, i: nat): int
    requires i <= |ss|
  {
    Level(ss[..i])
  }

  /** Starting with `base` open blocks, no prefix of `ss` closes more than are open. */
  predicate Nonneg(ss: seq<Stmt>, base: int) {
    forall i :: 0 <= i <= |ss| ==> base + PrefixLevel(ss, i) >= 0
  }

  /** A well-nested body: every `}` closes an opener before it, and none is left open. */
  predicate Nested(ss: seq<Stmt>) {
    Nonneg(ss, 0) && Level(ss) == 0
  }

  lemma NonnegConcat(a: seq<Stmt>, b: seq<Stmt>, base: int)
    requires Nonneg(a, base) && Nonneg(b, base + Level(a))
    ensures Nonneg(a + b, base)
  {
    forall i | 0 <= i <= |a + b| ensures base + PrefixLevel(a + b, i) >= 0 {
      if i <= |a| {
        assert base + PrefixLevel(a, i) >= 0;
        assert (a + b)[..i] == a[..i];
      } else {
        assert base + Level(a) + PrefixLevel(b, i - |a|) >= 0;
        assert (a + b)[..i] == a + b[..i - |a|];
        LevelConcat(a, b[..i - |a|]);
      }
    }
  }

  lemma NonnegSplit(a: seq<Stmt>, b: seq<Stmt>, base: int)
    requires Nonneg(a + b, base)
    ensures Nonneg(a, base) && Nonneg(b, base + Level(a))
  {
    forall i | 0 <= i <= |a| ensures base + PrefixLevel(a, i) >= 0 {
      assert base + PrefixLevel(a + b, i) >= 0;
      assert (a + b)[..i] == a[..i];
    }
    forall i | 0 <= i <= |b| ensures base + Level(a) + PrefixLevel(b, i) >= 0 {
      assert PrefixLevel(a + b, |a| + i) >= -base;
      assert (a + b)[..|a| + i] == a + b[..i];
      LevelConcat(a, b[..i]);
    }
  }

  /** The first and the last prefix. */
  lemma NonnegEnds(ss: seq<Stmt>, base: int)
    requires Nonneg(ss, base)
    ensures base >= 0 && base + Level(ss) >= 0
  {
    assert base + PrefixLevel(ss, 0) >= 0 && ss[..0] == [];
    assert base + PrefixLevel(ss, |ss|) >= 0 && ss[..|ss|] == ss;
  }

  lemma NonnegSingle(s: Stmt, base: int)
    requires base >= 0 && base + Level([s]) >= 0
    ensures Nonneg([s], base)
  {
    assert [s][..0] == [];
    assert [s][..1] == [s];
  }

  lemma LevelSingle(s: Stmt)
    ensures Level([s]) == if s.Open? then 1 else if s.Close? then -1 else 0
  {
    CountSingle(s, OpenKind);
    CountSingle(s, CloseKind);
  }

  /** A run of closing lines lowers the level by its length. */
  lemma {:induction false} ClosesLevel(p: nat, d: nat)
    ensures Level(Closes(p, d)) == -|Closes(p, d)|
    ensures Count(Closes(p, d), OpenKind) == 0
    ensures Count(Closes(p, d), GuardKind) == 0
    ensures Count(Closes(p, d), CloseKind) == |Closes(p, d)|
    decreases p
  {
    if d < p {
      ClosesLevel(p - 1, d);
      assert Closes(p, d) == [Close(p)] + Closes(p - 1, d);
      CountConcat([Close(p)], Closes(p - 1, d), OpenKind);
      CountConcat([Close(p)], Closes(p - 1, d), GuardKind);
      CountConcat([Close(p)], Closes(p - 1, d), CloseKind);
      CountSingle(Close(p), OpenKind);
      CountSingle(Close(p), GuardKind);
      CountSingle(Close(p), CloseKind);
    }
  }

  /** With at least as many blocks open as there are closing lines, none of them goes below zero. */
  lemma {:induction false} ClosesNonneg(p: nat, d: nat, base: int)
    requires base >= |Closes(p, d)|
    ensures Nonneg(Closes(p, d), base)
    decreases p
  {
    if d < p {
      ClosesNonneg(p - 1, d, base - 1);
      assert Closes(p, d) == [Close(p)] + Closes(p - 1, d);
      LevelSingle(Close(p));
      NonnegSingle(Close(p), base);
      NonnegConcat([Close(p)], Closes(p - 1, d), base);
    } else {
      assert Closes(p, d)[..0] == [];
    }
  }
  /** A well-nested prefix, a run of closing lines it can absorb, and one more statement. */
  lemma AppendStep(p: seq<Stmt>, c: seq<Stmt>, s: Stmt)
    requires Nonneg(p, 0) && Nonneg(c, Level(p)) && Level(c) == -|c|
    requires Level(p) - |c| >= 0 && Level(p) - |c| + Level([s]) >= 0
    ensures Nonneg(p + c + [s], 0)
    ensures Level(p + c + [s]) == Level(p) - |c| + Level([s])
  {
    NonnegConcat(p, c, 0);
    LevelConcat(p, c);
    NonnegSingle(s, Level(p) - |c|);
    NonnegConcat(p + c, [s], 0);
    LevelConcat(p + c, [s]);
  }
}
