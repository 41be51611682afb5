/**
 * The compiler from end to end, without its file I/O: the text of the
 * generated module for a dump, what that text reads back as, when the
 * module loads, and what the loaded classifier returns.
 */
module Classifier {
  import opened Wrappers
  import opened Seqs
  import opened Strings
  import opened LineGrammar
  import opened Emitter
  import opened Braces
  import opened EmitterFacts
  import opened Generated
  import opened Evaluator
  import opened EvaluatorFacts
  import opened Reach

  /** The records of a dump. */
  function Records(dump: string): seq<Record> {
    Matched(SplitLines(dump))
  }

  /** The text of the generated module: the body, then the header around it. */
  method CompileDump(dump: string) returns (out: string)
    ensures out == ModuleText(Body(Records(dump)), VarList(Records(dump)))
  {
    var stmts, vars := Parser(dump);
    out := WriteModule(stmts, vars);
  }

  // ---------------------------------------------------------------------
  // The generated text
  // ---------------------------------------------------------------------

  /** Every statement of a compiled body can be rendered and read back. */
  lemma BodyEmittable(rs: seq<Record>)
    requires forall i :: 0 <= i < |rs| ==> WellFormed(rs[i])
    ensures forall i :: 0 <= i < |Body(rs)| ==> Emittable(Body(rs)[i]) && SingleLine(Body(rs)[i])
  {
    CondsOfBody(rs);
    forall i | 0 <= i < |Body(rs)| ensures Emittable(Body(rs)[i]) && SingleLine(Body(rs)[i]) {
      if !Body(rs)[i].Close? {
        CondsMember(Body(rs), i);
        var j :| 0 <= j < |rs| && StmtsOf(rs)[j] == Body(rs)[i];
        WordSingleLine(rs[j].name);
        WordSingleLine(rs[j].threshold);
        if rs[j].leaf.Some? {
          WordSingleLine(rs[j].leaf.value.className);
        }
      }
    }
  }

  /** Names, labels and thresholds are made of characters other than a newline. */
  lemma WordSingleLine(w: string)
    requires IsWord(w) || IsThreshold(w)
    ensures '\n' !in w
  {
  }

  lemma VarListWords(rs: seq<Record>)
    requires forall i :: 0 <= i < |rs| ==> WellFormed(rs[i])
    ensures forall i :: 0 <= i < |VarList(rs)| ==> IsWord(VarList(rs)[i]) && '\n' !in VarList(rs)[i]
  {
    VarListNames(rs);
    forall i | 0 <= i < |VarList(rs)| ensures IsWord(VarList(rs)[i]) && '\n' !in VarList(rs)[i] {
      assert VarList(rs)[i] in VarList(rs);
      var j :| 0 <= j < |rs| && rs[j].name == VarList(rs)[i];
      WordSingleLine(rs[j].name);
    }
  }

  /** The lines of the generated file. */
  function FileLines(ss: seq<Stmt>, vars: seq<string>): seq<string> {
    SplitLines(ModuleText(ss, vars))
  }

  /**
   * The generated file is the header line, one line per statement of the
   * body and a closing `}`, and each line reads back as what it renders.
   */
  lemma ModuleReadsBack(dump: string)
    ensures |FileLines(Body(Records(dump)), VarList(Records(dump)))| == |Body(Records(dump))| + 2
    ensures ReadHeader(FileLines(Body(Records(dump)), VarList(Records(dump)))[0]) == Some(VarList(Records(dump)))
    ensures forall i :: 0 <= i < |Body(Records(dump))| ==>
      ReadStmt(FileLines(Body(Records(dump)), VarList(Records(dump)))[i + 1]) == Some(Body(Records(dump))[i])
    ensures FileLines(Body(Records(dump)), VarList(Records(dump)))[|Body(Records(dump))| + 1] == "}"
  {
    RecordsReadBack(Records(dump));
  }

  /** The same for any well-formed records. */
  lemma RecordsReadBack(rs: seq<Record>)
    requires forall i :: 0 <= i < |rs| ==> WellFormed(rs[i])
    ensures |FileLines(Body(rs), VarList(rs))| == |Body(rs)| + 2
    ensures ReadHeader(FileLines(Body(rs), VarList(rs))[0]) == Some(VarList(rs))
    ensures forall i :: 0 <= i < |Body(rs)| ==> ReadStmt(FileLines(Body(rs), VarList(rs))[i + 1]) == Some(Body(rs)[i])
    ensures FileLines(Body(rs), VarList(rs))[|Body(rs)| + 1] == "}"
  {
    BodyEmittable(rs);
    VarListWords(rs);
    TextReadsBack(Body(rs), VarList(rs));
  }

  /** The same for any emittable body and header of words. */
  lemma TextReadsBack(ss: seq<Stmt>, vars: seq<string>)
    requires forall i :: 0 <= i < |ss| ==> Emittable(ss[i]) && SingleLine(ss[i])
    requires forall i :: 0 <= i < |vars| ==> IsWord(vars[i]) && '\n' !in vars[i]
    ensures |FileLines(ss, vars)| == |ss| + 2
    ensures ReadHeader(FileLines(ss, vars)[0]) == Some(vars)
    ensures forall i :: 0 <= i < |ss| ==> ReadStmt(FileLines(ss, vars)[i + 1]) == Some(ss[i])
    ensures FileLines(ss, vars)[|ss| + 1] == "}"
  {
    FileRows(ss, vars);
    ReadHeaderOf(vars);
    forall i | 0 <= i < |ss| ensures ReadStmt(FileLines(ss, vars)[i + 1]) == Some(ss[i]) {
      ReadRender(ss[i]);
    }
  }

  /** What stands on each line of the generated file. */
  lemma FileRows(ss: seq<Stmt>, vars: seq<string>)
    requires forall i :: 0 <= i < |ss| ==> SingleLine(ss[i])
    requires forall i :: 0 <= i < |vars| ==> '\n' !in vars[i]
    ensures |FileLines(ss, vars)| == |ss| + 2
    ensures FileLines(ss, vars)[0] == Header(vars)
    ensures forall i :: 0 <= i < |ss| ==> FileLines(ss, vars)[i + 1] == Render(ss[i])
    ensures FileLines(ss, vars)[|ss| + 1] == "}"
  {
    ModuleLines(ss, vars);
    Framed(Header(vars), Renders(ss), "}");
  }

  // ---------------------------------------------------------------------
  // Loading
  // ---------------------------------------------------------------------

  /** A matched line whose statement JavaScript accepts: an identifier and a numeric literal. */
  predicate RecordLoadable(m: Record) {
    Identifier(m.name) && IsThreshold(m.threshold) && ThresholdValue(m.threshold).Some?
  }

  lemma WordPlain(l: string)
    requires IsWord(l)
    ensures PlainLabel(l)
  {
  }

  lemma StmtLoadable(m: Record)
    requires WellFormed(m)
    ensures LoadableStmt(StmtOf(m)) <==> RecordLoadable(m)
  {
    if m.leaf.Some? {
      WordPlain(m.leaf.value.className);
    }
  }

  lemma {:induction false} CondsSubset(ss: seq<Stmt>, x: Stmt)
    ensures x in Conds(ss) ==> x in ss
  {
    if ss != [] {
      CondsSubset(ss[..|ss| - 1], x);
      assert ss == ss[..|ss| - 1] + [ss[|ss| - 1]];
    }
  }

  /** Every statement of the body comes from a loadable record. */
  lemma StmtsLoadable(rs: seq<Record>)
    requires forall i :: 0 <= i < |rs| ==> WellFormed(rs[i]) && RecordLoadable(rs[i])
    ensures forall p :: 0 <= p < |Body(rs)| ==> LoadableStmt(Body(rs)[p])
  {
    var ss := Body(rs);
    CondsOfBody(rs);
    forall p | 0 <= p < |ss| ensures LoadableStmt(ss[p]) {
      if !ss[p].Close? {
        CondsMember(ss, p);
        var q :| 0 <= q < |rs| && StmtsOf(rs)[q] == ss[p];
        StmtLoadable(rs[q]);
      }
    }
  }

  /** Every name of the header is the name of a loadable record. */
  lemma VarsIdentifiers(rs: seq<Record>)
    requires forall i :: 0 <= i < |rs| ==> RecordLoadable(rs[i])
    ensures forall k :: 0 <= k < |VarList(rs)| ==> Identifier(VarList(rs)[k])
  {
    VarListNames(rs);
    forall k | 0 <= k < |VarList(rs)| ensures Identifier(VarList(rs)[k]) {
      assert VarList(rs)[k] in VarList(rs);
      var i :| 0 <= i < |rs| && rs[i].name == VarList(rs)[k];
    }
  }

  /** Every record whose statement is loadable is loadable. */
  lemma RecordsLoadable(rs: seq<Record>)
    requires forall i :: 0 <= i < |rs| ==> WellFormed(rs[i])
    requires forall p :: 0 <= p < |Body(rs)| ==> LoadableStmt(Body(rs)[p])
    ensures forall i :: 0 <= i < |rs| ==> RecordLoadable(rs[i])
  {
    var ss := Body(rs);
    CondsOfBody(rs);
    forall i | 0 <= i < |rs| ensures RecordLoadable(rs[i]) {
      assert StmtsOf(rs)[i] == StmtOf(rs[i]);
      CondsSubset(ss, StmtOf(rs[i]));
      var p :| 0 <= p < |ss| && ss[p] == StmtOf(rs[i]);
      StmtLoadable(rs[i]);
    }
  }

  /**
   * A compiled module counts as loadable exactly when its braces nest and
   * every matched line has an identifier for a name and a numeric literal
   * for a threshold. Bindings at module scope are not modelled, so a body
   * that closes the exported function early counts as not loadable.
   */
  lemma LoadableIff(rs: seq<Record>)
    requires forall i :: 0 <= i < |rs| ==> WellFormed(rs[i])
    ensures Loadable(Body(rs), VarList(rs)) <==>
      Nested(Body(rs)) && forall i :: 0 <= i < |rs| ==> RecordLoadable(rs[i])
  {
    if forall i :: 0 <= i < |rs| ==> RecordLoadable(rs[i]) {
      PartsLoadable(rs);
      LoadableWhenParts(Body(rs), VarList(rs));
    }
    if Loadable(Body(rs), VarList(rs)) {
      RecordsLoadable(rs);
    }
  }

  /**
   * A compiled module whose lines are all loadable is left unloaded for one
   * of two reasons: its braces do not balance, so the text is no program,
   * or they balance but some prefix of the body closes more blocks than it
   * opened, ending the exported function early.
   */
  lemma UnloadableCases(rs: seq<Record>)
    requires forall i :: 0 <= i < |rs| ==> WellFormed(rs[i]) && RecordLoadable(rs[i])
    ensures !Loadable(Body(rs), VarList(rs)) <==>
      Level(Body(rs)) != 0 || exists i :: 0 <= i <= |Body(rs)| && PrefixLevel(Body(rs), i) < 0
  {
    LoadableIff(rs);
  }

  /** Loadable records give loadable statements and a loadable header. */
  lemma PartsLoadable(rs: seq<Record>)
    requires forall i :: 0 <= i < |rs| ==> WellFormed(rs[i]) && RecordLoadable(rs[i])
    ensures forall p :: 0 <= p < |Body(rs)| ==> LoadableStmt(Body(rs)[p])
    ensures forall k :: 0 <= k < |VarList(rs)| ==> Identifier(VarList(rs)[k])
    ensures forall i, j :: 0 <= i < j < |VarList(rs)| ==> VarList(rs)[i] != VarList(rs)[j]
  {
    VarListDistinct(rs);
    StmtsLoadable(rs);
    VarsIdentifiers(rs);
  }

  /** With loadable statements and header, loading depends on the braces alone. */
  lemma LoadableWhenParts(ss: seq<Stmt>, vars: seq<string>)
    requires forall p :: 0 <= p < |ss| ==> LoadableStmt(ss[p])
    requires forall k :: 0 <= k < |vars| ==> Identifier(vars[k])
    requires forall i, j :: 0 <= i < j < |vars| ==> vars[i] != vars[j]
    ensures Loadable(ss, vars) <==> Nested(ss)
  {
  }

  /** The module compiled from a complete tree dump with plain names and thresholds loads. */
  lemma {:induction false} TreeDumpLoadable(rs: seq<Record>)
    requires forall i :: 0 <= i < |rs| ==> WellFormed(rs[i]) && RecordLoadable(rs[i])
    requires TreeDump(rs)
    ensures Loadable(Body(rs), VarList(rs))
  {
    TreeDumpNested(rs);
    PartsLoadable(rs);
    LoadableWhenParts(Body(rs), VarList(rs));
  }

  // ---------------------------------------------------------------------
  // Classifying
  // ---------------------------------------------------------------------

  /** The header binds every name a condition of the body reads. */
  lemma BodyBound(rs: seq<Record>, args: map<string, int>)
    ensures Bound(Body(rs), Destructure(VarList(rs), args))
  {
    NamesDeclared(rs);
  }

  /** The compiled classifier never throws a `ReferenceError`. */
  lemma NeverThrows(rs: seq<Record>, args: map<string, int>)
    ensures !Classify(Body(rs), VarList(rs), args).ReferenceError?
  {
    var env := Destructure(VarList(rs), args);
    ErrorSource(Body(rs), env);
    NamesDeclared(rs);
  }

  /**
   * What the loaded classifier returns: the label of the first guard, in
   * the order of the dump, that is reached and whose condition holds, and
   * `undefined` when there is none.
   */
  lemma ClassifiesByFirstHit(rs: seq<Record>, args: map<string, int>)
    ensures var ss := Body(rs);
      var env := Destructure(VarList(rs), args);
      Classify(ss, VarList(rs), args) ==
        if Loadable(ss, VarList(rs)) then HitOutcome(ss, FirstHit(ss, env, 0)) else NotLoadable
  {
    var ss := Body(rs);
    var env := Destructure(VarList(rs), args);
    if Loadable(ss, VarList(rs)) {
      BodyBound(rs, args);
      RunIsFirstHit(ss, env);
    }
  }

  /** A name the caller leaves out is `undefined`, and a comparison with it is false. */
  lemma MissingIsFalse(c: Cond, vars: seq<string>, args: map<string, int>)
    requires c.name in vars && c.name !in args
    ensures Eval(c, Destructure(vars, args)) == Fails
  {
  }
}
