/**
 * The emitter of the compiler: the `parser` loop that walks the lines of the
 * dump, keeps the depth of the previous matched line (`prevIndentation`),
 * pushes the statements of the classifier's body into `lines` and collects
 * the variable names into `varSet`.
 *
 * Each pushed line is kept as a `Stmt` value; the `Generated` module renders
 * them as text. The loop is specified by functions on the sequence of
 * matched records (`Pending`, `Body`, `VarList`), and the properties of the
 * compiler are lemmas about those functions.
 */
module Emitter {
  import opened Wrappers
  import opened Strings
  import opened LineGrammar

  /** The condition `name op threshold` of one `if`. */
  datatype Cond = Cond(name: string, op: Op, threshold: string)

  /** One pushed line, with the number of tabs it is indented by. */
  datatype Stmt =
    | Open(tabs: nat, cond: Cond)                  // `if (c) {`
    | Guard(tabs: nat, cond: Cond, result: string) // `if (c) return "result"`
    | Close(tabs: nat)                             // `}`

  /** `match[1].length / 4`. */
  function Depth(m: Record): nat {
    |m.indent| / 4
  }

  /** The depth of a matched line is the whole number of its markers; no marker is depth 0. */
  lemma DepthWhole(m: Record)
    requires WellFormed(m)
    ensures |m.indent| == 4 * Depth(m)
    ensures m.indent == Indent(Depth(m))
    ensures Depth(m) == 0 <==> m.indent == ""
  {
  }

  function CondOf(m: Record): Cond {
    Cond(m.name, m.op, m.threshold)
  }

  /** The statement a matched line pushes. */
  function StmtOf(m: Record): (s: Stmt)
    ensures !s.Close? && s.tabs == Depth(m) + 1 && s.cond == CondOf(m)
    ensures s.Guard? <==> m.leaf.Some?
    ensures s.Guard? ==> s.result == m.leaf.value.className
  {
    match m.leaf
    case Some(l) => Guard(Depth(m) + 1, CondOf(m), l.className)
    case None => Open(Depth(m) + 1, CondOf(m))
  }

  /** The closing lines pushed when the depth goes from `p` down to `d`. */
  function Closes(p: nat, d: nat): (r: seq<Stmt>)
    ensures |r| == if d < p then p - d else 0
    ensures forall i :: 0 <= i < |r| ==> r[i] == Close(p - i)
    decreases p
  {
    if p <= d then [] else [Close(p)] + Closes(p - 1, d)
  }

  /** One more closing line, with one tab fewer than the last one. */
  lemma ClosesStep(p: nat, d: nat)
    requires d < p
    ensures Closes(p, d) == Closes(p, d + 1) + [Close(d + 1)]
  {
  }

  /** The records of the lines the expression matches, in order. */
  function Matched(lines: seq<string>): (rs: seq<Record>)
    ensures |rs| <= |lines|
    ensures forall i :: 0 <= i < |rs| ==> WellFormed(rs[i])
  {
    if lines == [] then []
    else
      var init := Matched(lines[..|lines| - 1]);
      match Exec(lines[|lines| - 1])
      case None => init
      case Some(m) => init + [m.rec]
  }

  /** `prevIndentation` after the given records. */
  function LastDepth(rs: seq<Record>): nat {
    if rs == [] then 0 else Depth(rs[|rs| - 1])
  }

  /** `lines` after the given records, before the final closing loop. */
  function Pending(rs: seq<Record>): seq<Stmt> {
    if rs == [] then []
    else
      var init := rs[..|rs| - 1];
      var m := rs[|rs| - 1];
      Pending(init) + Closes(LastDepth(init), Depth(m)) + [StmtOf(m)]
  }

  /** The body of the classifier: `lines` after the final closing loop. */
  function Body(rs: seq<Record>): seq<Stmt> {
    Pending(rs) + Closes(LastDepth(rs), 0)
  }

  /** `varSet.add(n)` on the insertion-ordered set. */
  function AddName(vs: seq<string>, n: string): (r: seq<string>)
    ensures n in r
    ensures forall x :: x in r <==> x in vs || x == n
  {
    if n in vs then vs else vs + [n]
  }

  /** `[...varSet]` after the given records. */
  function VarList(rs: seq<Record>): seq<string> {
    if rs == [] then [] else AddName(VarList(rs[..|rs| - 1]), rs[|rs| - 1].name)
  }

  /** Taking one more line of the dump. */
  lemma MatchedStep(lines: seq<string>, k: nat)
    requires k < |lines|
    ensures Exec(lines[k]).None? ==> Matched(lines[..k + 1]) == Matched(lines[..k])
    ensures Exec(lines[k]).Some? ==> Matched(lines[..k + 1]) == Matched(lines[..k]) + [Exec(lines[k]).value.rec]
  {
    assert lines[..k + 1][..k] == lines[..k];
  }

  /** Taking one more matched record. */
  lemma RecordStep(rs: seq<Record>, m: Record)
    ensures Pending(rs + [m]) == Pending(rs) + Closes(LastDepth(rs), Depth(m)) + [StmtOf(m)]
    ensures LastDepth(rs + [m]) == Depth(m)
    ensures VarList(rs + [m]) == AddName(VarList(rs), m.name)
  {
    assert (rs + [m])[..|rs|] == rs;
  }

  /**
   * The counted loop that pushes one closing line per level left, from
   * `prev` tabs down to `indent + 1` tabs (the loops after the depth test
   * and after the main loop).
   */
  method PushCloses(lines: seq<Stmt>, prev: nat, indent: nat) returns (r: seq<Stmt>)
    ensures r == lines + Closes(prev, indent)
  {
    r := lines;
    if indent < prev {
      for i := 0 to prev - indent
        invariant r == lines + Closes(prev, prev - i)
      {
        ClosesStep(prev, prev - i - 1);
        r := r + [Close(prev - i)];
      }
    }
  }

  /** The work of the loop for one matched line. */
  method Emit(lines: seq<Stmt>, prev: nat, vars: seq<string>, m: Record)
    returns (lines': seq<Stmt>, prev': nat, vars': seq<string>)
    ensures lines' == lines + Closes(prev, Depth(m)) + [StmtOf(m)]
    ensures prev' == Depth(m)
    ensures vars' == AddName(vars, m.name)
  {
    var indent := |m.indent| / 4;
    lines' := PushCloses(lines, prev, indent);
    prev' := indent;
    vars' := AddName(vars, m.name);
    if m.leaf.Some? {
      lines' := lines' + [Guard(indent + 1, Cond(m.name, m.op, m.threshold), m.leaf.value.className)];
    } else {
      lines' := lines' + [Open(indent + 1, Cond(m.name, m.op, m.threshold))];
    }
  }

  /**
   * The `parser` loop of the compiler. `stmts` is the array `lines`, `vars`
   * the contents of `varSet` in insertion order.
   */
  method Parser(text: string) returns (stmts: seq<Stmt>, vars: seq<string>)
    ensures stmts == Body(Matched(SplitLines(text)))
    ensures vars == VarList(Matched(SplitLines(text)))
  {
    var inputLines := SplitLines(text);
    var prev: nat := 0;
    stmts := [];
    vars := [];
    for k := 0 to |inputLines|
      invariant stmts == Pending(Matched(inputLines[..k]))
      invariant prev == LastDepth(Matched(inputLines[..k]))
      invariant vars == VarList(Matched(inputLines[..k]))
    {
      MatchedStep(inputLines, k);
      var found := Exec(inputLines[k]);
      if found.None? {
        continue;
      }
      var m := found.value.rec;
      RecordStep(Matched(inputLines[..k]), m);
      stmts, prev, vars := Emit(stmts, prev, vars, m);
    }
    assert inputLines[..|inputLines|] == inputLines;
    stmts := PushCloses(stmts, prev, 0);
  }
}
