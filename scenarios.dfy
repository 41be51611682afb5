/**
 * Concrete dumps and what the classifier compiled from them returns.
 */
module Scenarios {
  import opened Wrappers
  import opened Strings
  import opened LineGrammar
  import opened Emitter
  import opened Braces
  import opened EmitterFacts
  import opened Evaluator
  import opened EvaluatorFacts
  import opened Classifier
  import opened Seqs

  // ---------------------------------------------------------------------
  // One rule: `ch4 > 500 : bell_pepper (12.0)`
  // ---------------------------------------------------------------------

  const BellPepper := Record("", "ch4", Gt, "500", Some(Leaf("bell_pepper", "(12.0)")))

  lemma HighMethane()
    ensures ThresholdValue("500") == Some(500.0)
  {
    assert DotIndex("500") == None by {
      assert "500"[1..] == "00";
      assert "00"[1..] == "0";
      assert "0"[1..] == "";
    }
    assert "500"[..2] == "50" && "50"[..1] == "5" && "5"[..0] == "";
  }

  /** The dump line of the rule. */
  lemma BellPepperText()
    ensures Text(BellPepper) == "ch4 > 500 : bell_pepper (12.0)"
  {
    RuleSpelled();
    assert Text(BellPepper) == "" + ("ch4" + (" " + ((">" + " ") + ("500" + (" : " + "bell_pepper" + " " + "(12.0)")))));
  }

  lemma RuleSpelled()
    ensures "" + ("ch4" + (" " + ((">" + " ") + ("500" + (" : " + "bell_pepper" + " " + "(12.0)"))))) ==
      "ch4 > 500 : bell_pepper (12.0)"
  {
  }

  /** The one-line dump is read as exactly that record. */
  lemma SingleRuleDump(dump: string)
    requires dump == "ch4 > 500 : bell_pepper (12.0)"
    ensures Records(dump) == [BellPepper]
  {
    BellPepperLoadable();
    BellPepperText();
    assert Texts([BellPepper]) == [dump] by {
      assert [BellPepper][..0] == [];
    }
    DumpOfRecords([BellPepper]);
  }

  /** The body is one guarded return, and the header binds `ch4`. */
  lemma SingleRuleBody()
    ensures Body([BellPepper]) == [Guard(1, Cond("ch4", Gt, "500"), "bell_pepper")]
    ensures VarList([BellPepper]) == ["ch4"]
  {
    var rs := [BellPepper];
    assert rs[..0] == [];
    assert Depth(BellPepper) == 0;
    assert Pending(rs) == [StmtOf(BellPepper)];
    assert LastDepth(rs) == 0;
  }

  /** A single leaf line at depth 0 is a complete tree. */
  lemma SingleRuleShaped()
    ensures TreeDump([BellPepper])
  {
    assert [BellPepper][..0] == [];
    assert Shaped([]) && Avail([]) == 0 && !Opened([]);
    assert Depth(BellPepper) == 0;
    assert !Opened([BellPepper]);
  }

  lemma BellPepperLoadable()
    ensures WellFormed(BellPepper) && RecordLoadable(BellPepper)
  {
    assert WellFormed(BellPepper) by {
      assert Indent(0) == "";
    }
    HighMethane();
    Ch4Identifier();
  }

  lemma SingleRuleLoads()
    ensures Loadable(Body([BellPepper]), VarList([BellPepper]))
  {
    var rs := [BellPepper];
    assert TreeDump(rs) by {
      SingleRuleShaped();
    }
    assert forall i :: 0 <= i < |rs| ==> WellFormed(rs[i]) && RecordLoadable(rs[i]) by {
      BellPepperLoadable();
    }
    TreeDumpLoadable(rs);
  }

  /** The one-rule classifier run on `args`. */
  function SingleRule(args: map<string, int>): Outcome {
    Classify(Body([BellPepper]), VarList([BellPepper]), args)
  }

  lemma SingleRuleRun(args: map<string, int>)
    ensures SingleRule(args) ==
      Run([Guard(1, Cond("ch4", Gt, "500"), "bell_pepper")], Destructure(["ch4"], args))
  {
    SingleRuleLoads();
    SingleRuleBody();
  }

  /** The label when `ch4` is above 500; `undefined` otherwise, a missing reading included. */
  lemma SingleRuleClassifies(args: map<string, int>)
    ensures SingleRule(args) ==
      if "ch4" in args && args["ch4"] > 500 then Returned("bell_pepper") else Undefined
  {
    var g := Guard(1, Cond("ch4", Gt, "500"), "bell_pepper");
    var env := Destructure(["ch4"], args);
    SingleRuleRun(args);
    assert Eval(g.cond, env) == if "ch4" in args && args["ch4"] > 500 then Holds else Fails by {
      HighMethane();
      EvalAt(g.cond, ["ch4"], args, 500.0);
    }
    LoneGuard(g, env);
  }

  /** The same, starting from the text of the dump. */
  lemma SingleRuleCompiled(dump: string, args: map<string, int>)
    requires dump == "ch4 > 500 : bell_pepper (12.0)"
    ensures Classify(Body(Records(dump)), VarList(Records(dump)), args) ==
      if "ch4" in args && args["ch4"] > 500 then Returned("bell_pepper") else Undefined
  {
    SingleRuleDump(dump);
    SingleRuleClassifies(args);
  }

  lemma SingleRuleExamples()
    ensures SingleRule(map["ch4" := 600]) == Returned("bell_pepper")
    ensures SingleRule(map["ch4" := 100]) == Undefined
    ensures SingleRule(map[]) == Undefined
  {
    SingleRuleClassifies(map["ch4" := 600]);
    SingleRuleClassifies(map["ch4" := 100]);
    SingleRuleClassifies(map[]);
  }

  // ---------------------------------------------------------------------
  // A nested rule:
  //   ch4 > 500
  //   |   lpg > 10 : tomato_sauce (5.0)
  //   ch4 <= 500 : potato (8.0)
  // ---------------------------------------------------------------------

  const HighCh4 := Record("", "ch4", Gt, "500", None)
  const TomatoSauce := Record("|   ", "lpg", Gt, "10", Some(Leaf("tomato_sauce", "(5.0)")))
  const Potato := Record("", "ch4", Le, "500", Some(Leaf("potato", "(8.0)")))

  const Nest: seq<Stmt> := [
    Open(1, Cond("ch4", Gt, "500")),
    Guard(2, Cond("lpg", Gt, "10"), "tomato_sauce"),
    Close(1),
    Guard(1, Cond("ch4", Le, "500"), "potato")]

  lemma LowLpg()
    ensures ThresholdValue("10") == Some(10.0)
  {
    assert DotIndex("10") == None by {
      assert "10"[1..] == "0";
      assert "0"[1..] == "";
    }
    assert "10"[..1] == "1" && "1"[..0] == "";
  }

  lemma HighCh4Text()
    ensures Text(HighCh4) == "ch4 > 500"
  {
    assert Text(HighCh4) == "" + ("ch4" + (" " + ((">" + " ") + ("500" + ""))));
  }

  lemma TomatoSauceText()
    ensures Text(TomatoSauce) == "|   lpg > 10 : tomato_sauce (5.0)"
  {
    TomatoSauceSpelled();
    assert Text(TomatoSauce) == "|   " + ("lpg" + (" " + ((">" + " ") + ("10" + (" : " + "tomato_sauce" + " " + "(5.0)")))));
  }

  lemma TomatoSauceSpelled()
    ensures "|   " + ("lpg" + (" " + ((">" + " ") + ("10" + (" : " + "tomato_sauce" + " " + "(5.0)"))))) ==
      "|   lpg > 10 : tomato_sauce (5.0)"
  {
  }

  lemma PotatoText()
    ensures Text(Potato) == "ch4 <= 500 : potato (8.0)"
  {
    PotatoSpelled();
    assert Text(Potato) == "" + ("ch4" + (" " + (("<=" + " ") + ("500" + (" : " + "potato" + " " + "(8.0)")))));
  }

  lemma PotatoSpelled()
    ensures "" + ("ch4" + (" " + (("<=" + " ") + ("500" + (" : " + "potato" + " " + "(8.0)"))))) ==
      "ch4 <= 500 : potato (8.0)"
  {
  }

  lemma JoinThree(a: string, b: string, c: string)
    ensures JoinLines([a, b, c]) == a + "\n" + b + "\n" + c
  {
    assert [a, b, c][1..] == [b, c] && [b, c][1..] == [c];
    assert JoinLines([b, c]) == b + "\n" + c;
    assert JoinLines([a, b, c]) == a + "\n" + JoinLines([b, c]);
    Assoc(a + "\n", b, "\n");
    Assoc(a + "\n", b + "\n", c);
  }

  lemma NestTexts()
    ensures Texts([HighCh4, TomatoSauce, Potato]) == [Text(HighCh4), Text(TomatoSauce), Text(Potato)]
  {
    var rs := [HighCh4, TomatoSauce, Potato];
    forall i | 0 <= i < 3 ensures Texts(rs)[i] == [Text(HighCh4), Text(TomatoSauce), Text(Potato)][i] {
      TextsAt(rs, i);
    }
  }

  /** The three-line dump is read as exactly those records, in order. */
  lemma NestDump(dump: string)
    requires dump == "ch4 > 500" + "\n" + "|   lpg > 10 : tomato_sauce (5.0)" + "\n" + "ch4 <= 500 : potato (8.0)"
    ensures Records(dump) == [HighCh4, TomatoSauce, Potato]
  {
    var rs := [HighCh4, TomatoSauce, Potato];
    HighCh4Loadable();
    TomatoSauceLoadable();
    PotatoLoadable();
    HighCh4Text();
    TomatoSauceText();
    PotatoText();
    NestTexts();
    JoinThree(Text(HighCh4), Text(TomatoSauce), Text(Potato));
    DumpOfRecords(rs);
  }

  /**
   * The opener's block holds the indented line; the `}` goes in when the
   * depth drops back, before the third line. `ch4` is listed once.
   */
  lemma NestBody()
    ensures Body([HighCh4, TomatoSauce, Potato]) == Nest
    ensures VarList([HighCh4, TomatoSauce, Potato]) == ["ch4", "lpg"]
  {
    var r1, r2, r3 := [HighCh4], [HighCh4, TomatoSauce], [HighCh4, TomatoSauce, Potato];
    assert r1[..0] == [] && r2[..1] == r1 && r3[..2] == r2;
    assert Depth(HighCh4) == 0 && Depth(TomatoSauce) == 1 && Depth(Potato) == 0;
    assert Pending(r1) == [Nest[0]];
    assert Closes(0, 1) == [];
    assert Pending(r2) == [Nest[0], Nest[1]];
    assert Closes(1, 0) == [Close(1)] by {
      assert Closes(0, 0) == [];
    }
    assert Pending(r3) == Nest;
    assert LastDepth(r3) == 0;
    assert VarList(r1) == ["ch4"];
    assert VarList(r2) == ["ch4", "lpg"];
  }

  /** The dump has a tree's shape: the line after the opener is one deeper. */
  lemma NestShaped()
    ensures TreeDump([HighCh4, TomatoSauce, Potato])
  {
    var r1, r2, r3 := [HighCh4], [HighCh4, TomatoSauce], [HighCh4, TomatoSauce, Potato];
    assert r1[..0] == [] && r2[..1] == r1 && r3[..2] == r2;
    assert Depth(HighCh4) == 0 && Depth(TomatoSauce) == 1 && Depth(Potato) == 0;
    assert Shaped([]) && Avail([]) == 0 && !Opened([]);
    assert Shaped(r1) && Opened(r1) && Avail(r1) == 1;
    assert Shaped(r2) && !Opened(r2) && Avail(r2) == 1;
  }

  lemma Ch4Identifier()
    ensures Identifier("ch4")
  {
  }

  lemma LpgIdentifier()
    ensures Identifier("lpg")
  {
  }

  lemma HighCh4Loadable()
    ensures WellFormed(HighCh4) && RecordLoadable(HighCh4)
  {
    assert WellFormed(HighCh4) by {
      assert Indent(0) == "";
    }
    HighMethane();
    Ch4Identifier();
  }

  lemma TomatoSauceLoadable()
    ensures WellFormed(TomatoSauce) && RecordLoadable(TomatoSauce)
  {
    assert WellFormed(TomatoSauce) by {
      assert Indent(1) == Marker + Indent(0) && Indent(0) == "";
    }
    LowLpg();
    LpgIdentifier();
  }

  lemma PotatoLoadable()
    ensures WellFormed(Potato) && RecordLoadable(Potato)
  {
    assert WellFormed(Potato) by {
      assert Indent(0) == "";
    }
    HighMethane();
    Ch4Identifier();
  }

  lemma NestLoads()
    ensures Loadable(Body([HighCh4, TomatoSauce, Potato]), VarList([HighCh4, TomatoSauce, Potato]))
  {
    var rs := [HighCh4, TomatoSauce, Potato];
    assert TreeDump(rs) by {
      NestShaped();
    }
    forall i | 0 <= i < |rs| ensures WellFormed(rs[i]) && RecordLoadable(rs[i]) {
      if i == 0 {
        HighCh4Loadable();
      } else if i == 1 {
        TomatoSauceLoadable();
      } else {
        PotatoLoadable();
      }
    }
    TreeDumpLoadable(rs);
  }

  /** The nested classifier run on `args`. */
  function Nested3(args: map<string, int>): Outcome {
    Classify(Body([HighCh4, TomatoSauce, Potato]), VarList([HighCh4, TomatoSauce, Potato]), args)
  }

  lemma NestRun(args: map<string, int>)
    ensures Nested3(args) == Run(Nest, Destructure(NestVars, args))
  {
    NestLoads();
    NestBody();
  }

  /** A guard on its own returns its label when its condition holds. */
  lemma LoneGuard(g: Stmt, env: Scope)
    requires g.Guard? && g.cond.name in env
    ensures Run([g], env) == if Eval(g.cond, env) == Holds then Returned(g.result) else Undefined
  {
    assert [g] == [g] + [];
    RunGuard(g.tabs, g.cond, g.result, [], env);
  }

  /** How the body runs: the block if `ch4 > 500`, then the last guard if the block returns nothing. */
  lemma NestSteps(env: Scope)
    requires "ch4" in env && "lpg" in env
    ensures Run(Nest, env) ==
      if Eval(Nest[0].cond, env) == Holds && Eval(Nest[1].cond, env) == Holds then Returned("tomato_sauce")
      else Run([Nest[3]], env)
  {
    assert Nest == [Nest[0]] + [Nest[1]] + [Close(1)] + [Nest[3]];
    assert Nested([Nest[1]]) by {
      var b := [Nest[1]];
      assert b[..0] == [] && b[..1] == b;
      CountSingle(Nest[1], OpenKind);
      CountSingle(Nest[1], CloseKind);
      assert PrefixLevel(b, 0) == 0 && PrefixLevel(b, 1) == 0;
    }
    RunBlock(1, Nest[0].cond, [Nest[1]], 1, [Nest[3]], env);
    LoneGuard(Nest[1], env);
  }

  /** `x op t` for a record's condition, with a number or `undefined` for `x`. */
  lemma EvalAt(c: Cond, vars: seq<string>, args: map<string, int>, t: real)
    requires c.name in vars && IsThreshold(c.threshold) && ThresholdValue(c.threshold) == Some(t)
    ensures Eval(c, Destructure(vars, args)) ==
      if c.name in args && Compare(args[c.name] as real, c.op, t) then Holds else Fails
  {
  }

  /**
   * The nested classifier on any arguments: the inner label when both
   * readings are above their thresholds; `undefined` when `ch4` is above
   * 500 but `lpg` is not above 10 or missing (the block returns nothing and
   * the last guard fails); the last label when `ch4` is at most 500; and
   * `undefined` when there is no `ch4` reading.
   */
  lemma NestClassifies(args: map<string, int>)
    ensures Nested3(args) ==
      if "ch4" !in args then Undefined
      else if args["ch4"] <= 500 then Returned("potato")
      else if "lpg" in args && args["lpg"] > 10 then Returned("tomato_sauce")
      else Undefined
  {
    var env := Destructure(NestVars, args);
    NestRun(args);
    OpenerCond(args);
    InnerCond(args);
    LastCond(args);
    NestOutcome(env);
  }

  /** The names the header of the nested classifier binds. */
  const NestVars: seq<string> := ["ch4", "lpg"]

  /** One condition of the body, on any arguments. */
  lemma CondAt(c: Cond, t: real, args: map<string, int>)
    requires c.name == "ch4" || c.name == "lpg"
    requires IsThreshold(c.threshold) && ThresholdValue(c.threshold) == Some(t)
    ensures Eval(c, Destructure(NestVars, args)) ==
      if c.name in args && Compare(args[c.name] as real, c.op, t) then Holds else Fails
  {
    assert c.name in NestVars;
    EvalAt(c, NestVars, args, t);
  }

  /** The opener's condition `ch4 > 500` on any arguments. */
  lemma OpenerCond(args: map<string, int>)
    ensures Eval(Nest[0].cond, Destructure(NestVars, args)) ==
      if "ch4" in args && args["ch4"] > 500 then Holds else Fails
  {
    HighMethane();
    CondAt(Nest[0].cond, 500.0, args);
  }

  /** The inner guard's condition `lpg > 10` on any arguments. */
  lemma InnerCond(args: map<string, int>)
    ensures Eval(Nest[1].cond, Destructure(NestVars, args)) ==
      if "lpg" in args && args["lpg"] > 10 then Holds else Fails
  {
    LowLpg();
    CondAt(Nest[1].cond, 10.0, args);
  }

  /** The last guard's condition `ch4 <= 500` on any arguments. */
  lemma LastCond(args: map<string, int>)
    ensures Eval(Nest[3].cond, Destructure(NestVars, args)) ==
      if "ch4" in args && args["ch4"] <= 500 then Holds else Fails
  {
    HighMethane();
    CondAt(Nest[3].cond, 500.0, args);
  }

  /** The body's outcome from the outcomes of its three conditions. */
  lemma NestOutcome(env: Scope)
    requires "ch4" in env && "lpg" in env
    ensures Run(Nest, env) ==
      if Eval(Nest[0].cond, env) == Holds && Eval(Nest[1].cond, env) == Holds then Returned("tomato_sauce")
      else if Eval(Nest[3].cond, env) == Holds then Returned("potato")
      else Undefined
  {
    NestSteps(env);
    LoneGuard(Nest[3], env);
  }

  /** The same, starting from the text of the dump. */
  lemma NestCompiled(dump: string, args: map<string, int>)
    requires dump == "ch4 > 500" + "\n" + "|   lpg > 10 : tomato_sauce (5.0)" + "\n" + "ch4 <= 500 : potato (8.0)"
    ensures Classify(Body(Records(dump)), VarList(Records(dump)), args) ==
      if "ch4" !in args then Undefined
      else if args["ch4"] <= 500 then Returned("potato")
      else if "lpg" in args && args["lpg"] > 10 then Returned("tomato_sauce")
      else Undefined
  {
    NestDump(dump);
    NestClassifies(args);
  }

  lemma NestExamples()
    ensures Nested3(map["ch4" := 600, "lpg" := 20]) == Returned("tomato_sauce")
    ensures Nested3(map["ch4" := 600, "lpg" := 5]) == Undefined
    ensures Nested3(map["ch4" := 400]) == Returned("potato")
    ensures Nested3(map["ch4" := 600]) == Undefined
  {
    NestClassifies(map["ch4" := 600, "lpg" := 20]);
    NestClassifies(map["ch4" := 600, "lpg" := 5]);
    NestClassifies(map["ch4" := 400]);
    NestClassifies(map["ch4" := 600]);
  }

  // ---------------------------------------------------------------------
  // Balanced but not nested:
  //   |   a > 1 : X y
  //   b > 2
  // ---------------------------------------------------------------------

  const DeepFirst := Record("|   ", "a", Gt, "1", Some(Leaf("X", "y")))
  const OpenLast := Record("", "b", Gt, "2", None)

  /**
   * The `}` pushed when the depth drops comes before the opener it would
   * have to close, so the braces balance but do not nest.
   */
  lemma BalancedNotNestedBody()
    ensures Body([DeepFirst, OpenLast]) ==
      [Guard(2, Cond("a", Gt, "1"), "X"), Close(1), Open(1, Cond("b", Gt, "2"))]
  {
    var r1, r2 := [DeepFirst], [DeepFirst, OpenLast];
    assert r1[..0] == [] && r2[..1] == r1;
    assert Depth(DeepFirst) == 1 && Depth(OpenLast) == 0;
    assert Closes(0, 1) == [];
    assert Pending(r1) == [Guard(2, Cond("a", Gt, "1"), "X")];
    assert Closes(1, 0) == [Close(1)] by {
      assert Closes(0, 0) == [];
    }
    assert LastDepth(r2) == 0;
  }

  /**
   * Such a module closes the exported function after its second line and
   * counts as not loadable, whatever the arguments: `b` is no name bound
   * at module scope, so the opener left outside throws once loaded.
   */
  lemma BalancedNotNested(args: map<string, int>)
    ensures Level(Body([DeepFirst, OpenLast])) == 0
    ensures PrefixLevel(Body([DeepFirst, OpenLast]), 2) < 0
    ensures !Nested(Body([DeepFirst, OpenLast]))
    ensures Classify(Body([DeepFirst, OpenLast]), VarList([DeepFirst, OpenLast]), args) == NotLoadable
  {
    var ss := Body([DeepFirst, OpenLast]);
    BalancedNotNestedBody();
    assert ss[..2] == [ss[0]] + [ss[1]];
    CountConcat([ss[0]], [ss[1]], OpenKind);
    CountConcat([ss[0]], [ss[1]], CloseKind);
    CountSingle(ss[0], OpenKind);
    CountSingle(ss[0], CloseKind);
    CountSingle(ss[1], OpenKind);
    CountSingle(ss[1], CloseKind);
    assert PrefixLevel(ss, 2) == -1;
    assert ss == ss[..2] + [ss[2]];
    CountConcat(ss[..2], [ss[2]], OpenKind);
    CountConcat(ss[..2], [ss[2]], CloseKind);
    CountSingle(ss[2], OpenKind);
    CountSingle(ss[2], CloseKind);
  }
}
