/**
 * What the `parser` loop produces, stated over the matched records of a
 * dump: unmatched lines leave it alone, every matched line gives exactly one
 * condition statement, the closing lines follow the depth, the braces of a
 * well-shaped dump nest, and `varSet` lists each name once, in first-seen
 * order.
 */
module EmitterFacts {
  import opened Wrappers
  import opened Strings
  import opened LineGrammar
  import opened Emitter
  import opened Braces
  import opened Seqs

  // ---------------------------------------------------------------------
  // Unmatched lines
  // ---------------------------------------------------------------------

  lemma MatchedSnoc(lines: seq<string>, l: string)
    ensures Exec(l).None? ==> Matched(lines + [l]) == Matched(lines)
    ensures Exec(l).Some? ==> Matched(lines + [l]) == Matched(lines) + [Exec(l).value.rec]
  {
    assert (lines + [l])[..|lines|] == lines;
  }

  lemma {:induction false} MatchedConcat(a: seq<string>, b: seq<string>)
    ensures Matched(a + b) == Matched(a) + Matched(b)
    decreases |b|
  {
    if b == [] {
      assert a + b == a;
    } else {
      var b0 := b[..|b| - 1];
      var x := b[|b| - 1];
      MatchedConcat(a, b0);
      SnocSplit(a, b);
      MatchedSnoc(a + b0, x);
      MatchedSnoc(b0, x);
      if Exec(x).Some? {
        Assoc(Matched(a), Matched(b0), [Exec(x).value.rec]);
      }
    }
  }

  lemma MatchedSingle(l: string)
    ensures Matched([l]) == if Exec(l).Some? then [Exec(l).value.rec] else []
  {
    assert [l][..0] == [];
  }

  /** The lines of a dump that holds exactly the given records. */
  function Texts(rs: seq<Record>): (ls: seq<string>)
    ensures |ls| == |rs|
  {
    if rs == [] then [] else Texts(rs[..|rs| - 1]) + [Text(rs[|rs| - 1])]
  }

  lemma {:induction false} TextsAt(rs: seq<Record>, i: nat)
    requires i < |rs|
    ensures Texts(rs)[i] == Text(rs[i])
    decreases |rs|
  {
    if i < |rs| - 1 {
      TextsAt(rs[..|rs| - 1], i);
    }
  }

  /** Writing records out one per line and matching the lines gives the records back. */
  lemma {:induction false} MatchedTexts(rs: seq<Record>)
    requires forall i :: 0 <= i < |rs| ==> WellFormed(rs[i])
    ensures Matched(Texts(rs)) == rs
  {
    if rs == [] {
      assert Texts(rs) == [];
    } else {
      var init := rs[..|rs| - 1];
      var m := rs[|rs| - 1];
      assert Matched(Texts(init)) == init by {
        MatchedTexts(init);
      }
      assert Texts(rs) == Texts(init) + [Text(m)];
      MatchedText(Texts(init), m);
      FrontLast(rs);
    }
  }

  /** A record's own text, matched after other lines, adds that record. */
  lemma MatchedText(ls: seq<string>, m: Record)
    requires WellFormed(m)
    ensures Matched(ls + [Text(m)]) == Matched(ls) + [m]
  {
    MatchedSnoc(ls, Text(m));
    ExecText(m);
  }

  /** The same for the text of such a dump, split at its newlines. */
  lemma DumpOfRecords(rs: seq<Record>)
    requires rs != []
    requires forall i :: 0 <= i < |rs| ==> WellFormed(rs[i])
    ensures Matched(SplitLines(JoinLines(Texts(rs)))) == rs
  {
    forall i | 0 <= i < |rs| ensures '\n' !in Texts(rs)[i] {
      TextsAt(rs, i);
      TextSingleLine(rs[i]);
    }
    SplitJoin(Texts(rs));
    MatchedTexts(rs);
  }

  /** A line the expression does not match leaves `lines`, `varSet` and `prevIndentation` as they were. */
  lemma UnmatchedLineKeepsState(a: seq<string>, l: string)
    requires Exec(l).None?
    ensures Matched(a + [l]) == Matched(a)
    ensures Pending(Matched(a + [l])) == Pending(Matched(a))
    ensures LastDepth(Matched(a + [l])) == LastDepth(Matched(a))
    ensures VarList(Matched(a + [l])) == VarList(Matched(a))
  {
    MatchedConcat(a, [l]);
    MatchedSingle(l);
    assert Matched(a) + [] == Matched(a);
  }

  /** Dropping an unmatched line from anywhere in the dump does not change the compiled classifier. */
  lemma UnmatchedLineIgnored(a: seq<string>, l: string, b: seq<string>)
    requires Exec(l).None?
    ensures Matched(a + [l] + b) == Matched(a + b)
    ensures Body(Matched(a + [l] + b)) == Body(Matched(a + b))
    ensures VarList(Matched(a + [l] + b)) == VarList(Matched(a + b))
  {
    UnmatchedLineKeepsState(a, l);
    MatchedConcat(a + [l], b);
    MatchedConcat(a, b);
  }

  // ---------------------------------------------------------------------
  // One statement per matched line
  // ---------------------------------------------------------------------

  /** The statements of the matched lines, one each, in order. */
  function StmtsOf(rs: seq<Record>): (ss: seq<Stmt>)
    ensures |ss| == |rs|
    ensures forall i :: 0 <= i < |rs| ==> ss[i] == StmtOf(rs[i])
  {
    if rs == [] then [] else StmtsOf(rs[..|rs| - 1]) + [StmtOf(rs[|rs| - 1])]
  }

  /** The statements of `ss` other than closing lines, in order. */
  function Conds(ss: seq<Stmt>): seq<Stmt> {
    if ss == [] then []
    else Conds(ss[..|ss| - 1]) + (if ss[|ss| - 1].Close? then [] else [ss[|ss| - 1]])
  }

  lemma {:induction false} CondsConcat(a: seq<Stmt>, b: seq<Stmt>)
    ensures Conds(a + b) == Conds(a) + Conds(b)
    decreases |b|
  {
    if b == [] {
      assert a + b == a;
    } else {
      var b0 := b[..|b| - 1];
      CondsConcat(a, b0);
      assert (a + b)[..|a + b| - 1] == a + b0;
      assert (a + b)[|a + b| - 1] == b[|b| - 1];
    }
  }

  lemma {:induction false} CondsCloses(p: nat, d: nat)
    ensures Conds(Closes(p, d)) == []
    decreases p
  {
    if d < p {
      CondsCloses(p - 1, d);
      assert Closes(p, d) == [Close(p)] + Closes(p - 1, d);
      CondsConcat([Close(p)], Closes(p - 1, d));
      assert [Close(p)][..0] == [];
    }
  }

  lemma {:induction false} CondsOfPending(rs: seq<Record>)
    ensures Conds(Pending(rs)) == StmtsOf(rs)
  {
    if rs != [] {
      var init := rs[..|rs| - 1];
      var m := rs[|rs| - 1];
      CondsOfPending(init);
      CondsConcat(Pending(init), Closes(LastDepth(init), Depth(m)));
      CondsConcat(Pending(init) + Closes(LastDepth(init), Depth(m)), [StmtOf(m)]);
      CondsCloses(LastDepth(init), Depth(m));
      assert [StmtOf(m)][..0] == [];
    }
  }

  /**
   * Leaving out the closing lines, the body is exactly one statement per
   * matched line, in order: a guarded return for a labelled line and an
   * opener otherwise, indented by the line's depth plus one.
   */
  lemma CondsOfBody(rs: seq<Record>)
    ensures Conds(Body(rs)) == StmtsOf(rs)
  {
    CondsOfPending(rs);
    CondsConcat(Pending(rs), Closes(LastDepth(rs), 0));
    CondsCloses(LastDepth(rs), 0);
  }

  /** The number of matched lines that carry a label. */
  function Labelled(rs: seq<Record>): (n: nat)
    ensures n <= |rs|
  {
    if rs == [] then 0 else Labelled(rs[..|rs| - 1]) + (if rs[|rs| - 1].leaf.Some? then 1 else 0)
  }

  /** The total upward movement of the depth, counted from depth 0. */
  function Rise(rs: seq<Record>): nat {
    if rs == [] then 0
    else
      var init := rs[..|rs| - 1];
      var d := Depth(rs[|rs| - 1]);
      Rise(init) + (if d > LastDepth(init) then d - LastDepth(init) else 0)
  }

  lemma {:induction false} PendingCounts(rs: seq<Record>)
    ensures Count(Pending(rs), GuardKind) == Labelled(rs)
    ensures Count(Pending(rs), OpenKind) == |rs| - Labelled(rs)
    ensures Count(Pending(rs), CloseKind) + LastDepth(rs) == Rise(rs)
  {
    if rs != [] {
      var init := rs[..|rs| - 1];
      var m := rs[|rs| - 1];
      var c := Closes(LastDepth(init), Depth(m));
      PendingCounts(init);
      ClosesLevel(LastDepth(init), Depth(m));
      CountConcat(Pending(init), c, GuardKind);
      CountConcat(Pending(init) + c, [StmtOf(m)], GuardKind);
      CountConcat(Pending(init), c, OpenKind);
      CountConcat(Pending(init) + c, [StmtOf(m)], OpenKind);
      CountConcat(Pending(init), c, CloseKind);
      CountConcat(Pending(init) + c, [StmtOf(m)], CloseKind);
      CountSingle(StmtOf(m), GuardKind);
      CountSingle(StmtOf(m), OpenKind);
      CountSingle(StmtOf(m), CloseKind);
    }
  }

  /**
   * The body holds one guarded return per labelled line, one opener per
   * unlabelled line, and as many closing lines as the depth rose in total.
   */
  lemma BodyCounts(rs: seq<Record>)
    ensures Count(Body(rs), GuardKind) == Labelled(rs)
    ensures Count(Body(rs), OpenKind) == |rs| - Labelled(rs)
    ensures Count(Body(rs), CloseKind) == Rise(rs)
  {
    PendingCounts(rs);
    ClosesLevel(LastDepth(rs), 0);
    CountConcat(Pending(rs), Closes(LastDepth(rs), 0), GuardKind);
    CountConcat(Pending(rs), Closes(LastDepth(rs), 0), OpenKind);
    CountConcat(Pending(rs), Closes(LastDepth(rs), 0), CloseKind);
  }

  /** The braces balance exactly when the unlabelled lines number as many as the depth rose. */
  lemma BalancedIff(rs: seq<Record>)
    ensures Level(Body(rs)) == 0 <==> |rs| - Labelled(rs) == Rise(rs)
  {
    BodyCounts(rs);
  }

  // ---------------------------------------------------------------------
  // Nesting for the dumps a tree learner writes
  // ---------------------------------------------------------------------

  /** Whether the last record left a block open (it had no label). */
  predicate Opened(rs: seq<Record>) {
    rs != [] && rs[|rs| - 1].leaf.None?
  }

  /** The depth the next record may have at most: one deeper right after an opener. */
  function Avail(rs: seq<Record>): nat {
    if rs == [] then 0 else Depth(rs[|rs| - 1]) + (if Opened(rs) then 1 else 0)
  }

  /**
   * A tree dump's shape: the first line is at depth 0, the line after an
   * unlabelled one is exactly one deeper, and any other line is no deeper
   * than the one before it.
   */
  predicate Shaped(rs: seq<Record>) {
    rs == [] ||
    (var init := rs[..|rs| - 1];
     var d := Depth(rs[|rs| - 1]);
     Shaped(init) && d <= Avail(init) && (Opened(init) ==> d == Avail(init)))
  }

  /** A complete tree dump: shaped, and its last line is a leaf. */
  predicate TreeDump(rs: seq<Record>) {
    Shaped(rs) && !Opened(rs)
  }

  lemma {:induction false} PendingNested(rs: seq<Record>)
    requires Shaped(rs)
    ensures Nonneg(Pending(rs), 0)
    ensures Level(Pending(rs)) == Avail(rs)
  {
    if rs == [] {
      assert Pending(rs)[..0] == [];
    } else {
      var init := rs[..|rs| - 1];
      var m := rs[|rs| - 1];
      var c := Closes(LastDepth(init), Depth(m));
      PendingNested(init);
      ClosesLevel(LastDepth(init), Depth(m));
      ClosesNonneg(LastDepth(init), Depth(m), Avail(init));
      assert Avail(init) - |c| == Depth(m);
      LevelSingle(StmtOf(m));
      AppendStep(Pending(init), c, StmtOf(m));
    }
  }

  /** The body compiled from a complete tree dump is well nested. */
  lemma TreeDumpNested(rs: seq<Record>)
    requires TreeDump(rs)
    ensures Nested(Body(rs))
  {
    PendingNested(rs);
    ClosesLevel(LastDepth(rs), 0);
    ClosesNonneg(LastDepth(rs), 0, Avail(rs));
    NonnegConcat(Pending(rs), Closes(LastDepth(rs), 0), 0);
    LevelConcat(Pending(rs), Closes(LastDepth(rs), 0));
  }

  // ---------------------------------------------------------------------
  // The variable set
  // ---------------------------------------------------------------------

  /** `varSet` holds exactly the names of the matched lines. */
  lemma {:induction false} VarListNames(rs: seq<Record>)
    ensures forall n :: n in VarList(rs) <==> exists i :: 0 <= i < |rs| && rs[i].name == n
  {
    if rs != [] {
      var init := rs[..|rs| - 1];
      VarListNames(init);
      forall n ensures n in VarList(rs) <==> exists i :: 0 <= i < |rs| && rs[i].name == n {
        if n in VarList(rs) && n != rs[|rs| - 1].name {
          assert n in VarList(init);
          var i :| 0 <= i < |init| && init[i].name == n;
          assert rs[i] == init[i];
        }
        if exists i :: 0 <= i < |rs| && rs[i].name == n {
          var i :| 0 <= i < |rs| && rs[i].name == n;
          if i < |init| {
            assert init[i] == rs[i];
          }
        }
      }
    }
  }

  /** Each name is listed once. */
  lemma {:induction false} VarListDistinct(rs: seq<Record>)
    ensures forall i, j :: 0 <= i < j < |VarList(rs)| ==> VarList(rs)[i] != VarList(rs)[j]
  {
    if rs != [] {
      VarListDistinct(rs[..|rs| - 1]);
    }
  }

  /** The position of the first matched line that uses `n`; `|rs|` when none does. */
  function FirstUse(rs: seq<Record>, n: string): (r: nat)
    ensures r <= |rs|
    ensures r < |rs| ==> rs[r].name == n
    ensures forall i :: 0 <= i < r ==> rs[i].name != n
  {
    if rs == [] then 0 else if rs[0].name == n then 0 else 1 + FirstUse(rs[1..], n)
  }

  lemma FirstUseUnique(rs: seq<Record>, n: string, r: nat)
    requires r <= |rs|
    requires r < |rs| ==> rs[r].name == n
    requires forall i :: 0 <= i < r ==> rs[i].name != n
    ensures FirstUse(rs, n) == r
  {
  }

  /** The first use of a name in a longer list. */
  lemma FirstUseSnoc(rs: seq<Record>, m: Record, n: string)
    ensures FirstUse(rs, n) < |rs| ==> FirstUse(rs + [m], n) == FirstUse(rs, n)
    ensures FirstUse(rs, n) == |rs| && m.name == n ==> FirstUse(rs + [m], n) == |rs|
  {
    var s := rs + [m];
    var f := FirstUse(rs, n);
    assert forall i :: 0 <= i < f ==> s[i] == rs[i];
    if f < |rs| {
      assert s[f] == rs[f];
      FirstUseUnique(s, n, f);
    } else if m.name == n {
      FirstUseUnique(s, n, |rs|);
    }
  }

  /** The names are listed in the order of their first use in the dump. */
  lemma {:induction false} VarListOrder(rs: seq<Record>)
    ensures forall i, j :: 0 <= i < j < |VarList(rs)| ==> FirstUse(rs, VarList(rs)[i]) < FirstUse(rs, VarList(rs)[j])
    ensures forall i :: 0 <= i < |VarList(rs)| ==> FirstUse(rs, VarList(rs)[i]) < |rs|
  {
    if rs != [] {
      var init := rs[..|rs| - 1];
      var m := rs[|rs| - 1];
      var vs := VarList(init);
      VarListOrder(init);
      FrontLast(rs);
      if m.name in vs {
        FirstUsesKept(init, m, rs, vs);
      } else {
        UnusedName(init, m.name);
        OrderAppend(init, m, rs, vs, VarList(rs));
      }
    }
  }

  /** Names already used keep their first use when a record is added. */
  lemma FirstUsesKept(rs: seq<Record>, m: Record, longer: seq<Record>, vs: seq<string>)
    requires longer == rs + [m]
    requires forall i :: 0 <= i < |vs| ==> FirstUse(rs, vs[i]) < |rs|
    ensures forall i :: 0 <= i < |vs| ==> FirstUse(longer, vs[i]) == FirstUse(rs, vs[i])
  {
    forall i | 0 <= i < |vs| ensures FirstUse(longer, vs[i]) == FirstUse(rs, vs[i]) {
      FirstUseSnoc(rs, m, vs[i]);
    }
  }

  /** A name not yet listed has no use in the dump. */
  lemma UnusedName(rs: seq<Record>, n: string)
    requires n !in VarList(rs)
    ensures FirstUse(rs, n) == |rs|
  {
    VarListNames(rs);
    FirstUseUnique(rs, n, |rs|);
  }

  /** A new name goes at the end, after every name used before it. */
  lemma OrderAppend(rs: seq<Record>, m: Record, longer: seq<Record>, vs: seq<string>, ws: seq<string>)
    requires longer == rs + [m] && ws == vs + [m.name]
    requires forall i, j :: 0 <= i < j < |vs| ==> FirstUse(rs, vs[i]) < FirstUse(rs, vs[j])
    requires forall i :: 0 <= i < |vs| ==> FirstUse(rs, vs[i]) < |rs|
    requires FirstUse(rs, m.name) == |rs|
    ensures forall i, j :: 0 <= i < j < |ws| ==> FirstUse(longer, ws[i]) < FirstUse(longer, ws[j])
    ensures forall i :: 0 <= i < |ws| ==> FirstUse(longer, ws[i]) < |longer|
  {
    FirstUsesKept(rs, m, longer, vs);
    FirstUseSnoc(rs, m, m.name);
    forall i | 0 <= i < |ws| ensures FirstUse(longer, ws[i]) == if i < |vs| then FirstUse(rs, vs[i]) else |rs| {
      if i < |vs| {
        assert ws[i] == vs[i];
      } else {
        assert ws[i] == m.name;
      }
    }
  }

  lemma CondsMember(ss: seq<Stmt>, i: nat)
    requires i < |ss| && !ss[i].Close?
    ensures ss[i] in Conds(ss)
  {
    assert ss == ss[..i] + [ss[i]] + ss[i + 1..];
    CondsConcat(ss[..i] + [ss[i]], ss[i + 1..]);
    CondsConcat(ss[..i], [ss[i]]);
    assert [ss[i]][..0] == [];
  }

  /** The header destructures every name a condition of the body reads. */
  lemma NamesDeclared(rs: seq<Record>)
    ensures forall i :: 0 <= i < |Body(rs)| && !Body(rs)[i].Close? ==> Body(rs)[i].cond.name in VarList(rs)
  {
    CondsOfBody(rs);
    VarListNames(rs);
    forall i | 0 <= i < |Body(rs)| && !Body(rs)[i].Close? ensures Body(rs)[i].cond.name in VarList(rs) {
      CondsMember(Body(rs), i);
      var j :| 0 <= j < |rs| && StmtsOf(rs)[j] == Body(rs)[i];
      assert Body(rs)[i].cond.name == rs[j].name;
    }
  }
}
