/**
 * The text of the generated module `wekaEval.js`: the header that
 * destructures the collected names, one line per pushed statement, and the
 * closing brace of the arrow function. Readers that parse that text back
 * show that nothing is lost in the rendering.
 */
module Generated {
  import opened Wrappers
  import opened Strings
  import opened LineGrammar
  import opened Emitter
  import opened Seqs

  function CondText(c: Cond): string {
    c.name + " " + (OpText(c.op) + " " + c.threshold)
  }

  /** The text pushed into `lines` for one statement. */
  function Render(s: Stmt): string {
    match s
    case Open(t, c) => Tabs(t) + ("if (" + (CondText(c) + ") {"))
    case Guard(t, c, l) => Tabs(t) + ("if (" + (CondText(c) + (") return \"" + (l + "\""))))
    case Close(t) => Tabs(t) + "}"
  }

  /** `[...varSet].join(", ")`. */
  function Join(vs: seq<string>): string {
    if vs == [] then "" else if |vs| == 1 then vs[0] else vs[0] + (", " + Join(vs[1..]))
  }

  const Prologue: string := "module.exports = ({"
  const Epilogue: string := "}) => {"

  /** The first line written: the arrow function destructuring the collected names. */
  function Header(vars: seq<string>): string {
    Prologue + (Join(vars) + Epilogue)
  }

  /** Every statement's text followed by a newline, in order. */
  function Written(ss: seq<Stmt>): string {
    if ss == [] then "" else Written(ss[..|ss| - 1]) + (Render(ss[|ss| - 1]) + "\n")
  }

  function ModuleText(ss: seq<Stmt>, vars: seq<string>): string {
    Header(vars) + "\n" + Written(ss) + "}"
  }

  /**
   * The text that the writes of lines 35-40 of wekaParse.js intend to put
   * in the generated file, one statement at a time. As written, those
   * writes call `write` on the promise API of line 1, which has no such
   * function, so the first of them fails after the file has been opened
   * and truncated.
   */
  method WriteModule(lines: seq<Stmt>, vars: seq<string>) returns (out: string)
    ensures out == ModuleText(lines, vars)
  {
    out := Header(vars) + "\n";
    for i := 0 to |lines|
      invariant out == Header(vars) + "\n" + Written(lines[..i])
    {
      assert lines[..i + 1][..i] == lines[..i];
      Assoc(Header(vars) + "\n", Written(lines[..i]), Render(lines[i]) + "\n");
      out := out + (Render(lines[i]) + "\n");
    }
    assert lines[..|lines|] == lines;
    Assoc(Header(vars) + "\n", Written(lines), "}");
    out := out + "}";
  }

  // ---------------------------------------------------------------------
  // The lines of the generated file
  // ---------------------------------------------------------------------

  /** The text of each statement. */
  function Renders(ss: seq<Stmt>): (r: seq<string>)
    ensures |r| == |ss|
    ensures forall i :: 0 <= i < |ss| ==> r[i] == Render(ss[i])
  {
    seq(|ss|, i requires 0 <= i < |ss| => Render(ss[i]))
  }

  lemma RendersSnoc(ss: seq<Stmt>)
    requires ss != []
    ensures Renders(ss) == Renders(ss[..|ss| - 1]) + [Render(ss[|ss| - 1])]
  {
  }

  /** No text of the statement holds a newline. */
  predicate SingleLine(s: Stmt) {
    match s
    case Open(_, c) => '\n' !in c.name && '\n' !in c.threshold
    case Guard(_, c, l) => '\n' !in c.name && '\n' !in c.threshold && '\n' !in l
    case Close(_) => true
  }

  lemma TabsSingleLine(n: nat)
    ensures '\n' !in Tabs(n)
  {
    assert forall i :: 0 <= i < |Tabs(n)| ==> Tabs(n)[i] != '\n';
  }

  lemma CondSingleLine(c: Cond)
    requires '\n' !in c.name && '\n' !in c.threshold
    ensures '\n' !in CondText(c)
  {
    assert '\n' !in OpText(c.op);
    NotInConcat('\n', OpText(c.op), " ");
    NotInConcat('\n', OpText(c.op) + " ", c.threshold);
    NotInConcat('\n', " ", OpText(c.op) + " " + c.threshold);
    NotInConcat('\n', c.name, " " + (OpText(c.op) + " " + c.threshold));
    Assoc(c.name, " ", OpText(c.op) + " " + c.threshold);
  }

  lemma RenderSingleLine(s: Stmt)
    requires SingleLine(s)
    ensures '\n' !in Render(s)
  {
    TabsSingleLine(s.tabs);
    match s
    case Open(t, c) =>
      CondSingleLine(c);
      NotInConcat('\n', CondText(c), ") {");
      NotInConcat('\n', "if (", CondText(c) + ") {");
      NotInConcat('\n', Tabs(t), "if (" + (CondText(c) + ") {"));
    case Guard(t, c, l) =>
      CondSingleLine(c);
      NotInConcat('\n', l, "\"");
      NotInConcat('\n', ") return \"", l + "\"");
      NotInConcat('\n', CondText(c), ") return \"" + (l + "\""));
      NotInConcat('\n', "if (", CondText(c) + (") return \"" + (l + "\"")));
      NotInConcat('\n', Tabs(t), "if (" + (CondText(c) + (") return \"" + (l + "\""))));
    case Close(t) =>
      NotInConcat('\n', Tabs(t), "}");
  }

  lemma {:induction false} JoinSingleLine(vs: seq<string>)
    requires forall i :: 0 <= i < |vs| ==> '\n' !in vs[i]
    ensures '\n' !in Join(vs)
  {
    if |vs| > 1 {
      JoinSingleLine(vs[1..]);
    }
  }

  lemma {:induction false} WrittenLines(ss: seq<Stmt>, last: string)
    ensures Written(ss) + last == JoinLines(Renders(ss) + [last])
  {
    if ss != [] {
      var init := ss[..|ss| - 1];
      var r := Render(ss[|ss| - 1]);
      WrittenLines(init, r + "\n" + last);
      Assoc(Written(init), r + "\n", last);
      RendersSnoc(ss);
      JoinSnoc(Renders(init), r, last);
    }
  }

  /** Joining with one more line at the end. */
  lemma {:induction false} JoinSnoc(ls: seq<string>, r: string, last: string)
    ensures JoinLines(ls + [r + "\n" + last]) == JoinLines(ls + [r] + [last])
    decreases |ls|
  {
    if ls == [] {
      assert ([r] + [last])[1..] == [last];
    } else {
      JoinSnoc(ls[1..], r, last);
      assert (ls + [r + "\n" + last])[1..] == ls[1..] + [r + "\n" + last];
      assert (ls + [r] + [last])[1..] == ls[1..] + [r] + [last];
    }
  }

  /**
   * Split on newlines, the generated module is the header, one line per
   * statement in order, and the final `}`.
   */
  lemma JoinHead(h: string, ss: seq<Stmt>)
    ensures h + "\n" + Written(ss) + "}" == JoinLines([h] + Renders(ss) + ["}"])
  {
    var rest := Renders(ss) + ["}"];
    assert [h] + Renders(ss) + ["}"] == [h] + rest;
    assert ([h] + rest)[1..] == rest;
    WrittenLines(ss, "}");
    Assoc(h + "\n", Written(ss), "}");
  }

  lemma HeaderSingleLine(vars: seq<string>)
    requires forall i :: 0 <= i < |vars| ==> '\n' !in vars[i]
    ensures '\n' !in Header(vars)
  {
    JoinSingleLine(vars);
    NotInConcat('\n', Join(vars), Epilogue);
    NotInConcat('\n', Prologue, Join(vars) + Epilogue);
  }

  lemma LinesSingleLine(h: string, ss: seq<Stmt>)
    requires '\n' !in h
    requires forall i :: 0 <= i < |ss| ==> SingleLine(ss[i])
    ensures forall i :: 0 <= i < |[h] + Renders(ss) + ["}"]| ==> '\n' !in ([h] + Renders(ss) + ["}"])[i]
  {
    RendersSingleLine(ss);
    FramedSingleLine(h, Renders(ss), "}");
  }

  lemma RendersSingleLine(ss: seq<Stmt>)
    requires forall i :: 0 <= i < |ss| ==> SingleLine(ss[i])
    ensures forall i :: 0 <= i < |Renders(ss)| ==> '\n' !in Renders(ss)[i]
  {
    forall i | 0 <= i < |ss| ensures '\n' !in Renders(ss)[i] {
      RenderSingleLine(ss[i]);
    }
  }

  lemma FramedSingleLine(h: string, m: seq<string>, t: string)
    requires '\n' !in h && '\n' !in t
    requires forall i :: 0 <= i < |m| ==> '\n' !in m[i]
    ensures forall i :: 0 <= i < |[h] + m + [t]| ==> '\n' !in ([h] + m + [t])[i]
  {
    var ls := [h] + m + [t];
    forall i | 0 <= i < |ls| ensures '\n' !in ls[i] {
      if 0 < i < |ls| - 1 {
        assert ls[i] == m[i - 1];
      }
    }
  }

  /**
   * Split on newlines, the generated module is the header, one line per
   * statement in order, and the final `}`.
   */
  lemma ModuleLines(ss: seq<Stmt>, vars: seq<string>)
    requires forall i :: 0 <= i < |ss| ==> SingleLine(ss[i])
    requires forall i :: 0 <= i < |vars| ==> '\n' !in vars[i]
    ensures SplitLines(ModuleText(ss, vars)) == [Header(vars)] + Renders(ss) + ["}"]
  {
    JoinHead(Header(vars), ss);
    HeaderSingleLine(vars);
    LinesSingleLine(Header(vars), ss);
    SplitJoin([Header(vars)] + Renders(ss) + ["}"]);
  }

  // ---------------------------------------------------------------------
  // Reading a statement line back
  // ---------------------------------------------------------------------

  /** The number of leading tabs. */
  function TabSpan(s: string): (n: nat)
    ensures n <= |s|
    ensures forall i :: 0 <= i < n ==> s[i] == '\t'
    ensures n < |s| ==> s[n] != '\t'
  {
    if s == [] || s[0] != '\t' then 0 else 1 + TabSpan(s[1..])
  }

  /** The condition at the start of `s` and the text after it. */
  function ReadCond(s: string): Option<(Cond, string)> {
    var w := WordSpan(s);
    if w == 0 || w == |s| || s[w] != ' ' then None
    else
      match OpAt(s[w + 1..])
      case None => None
      case Some((op, k)) =>
        var t := s[w + 1..][k..];
        var n := ThresholdSpan(t);
        if n == 0 then None else Some((Cond(s[..w], op, t[..n]), t[n..]))
  }

  /** Reads one line of the generated body back into the statement it renders. */
  function ReadStmt(line: string): Option<Stmt> {
    var n := TabSpan(line);
    ReadBody(n, line[n..])
  }

  /** The statement whose text after its `n` tabs is `rest`. */
  function ReadBody(n: nat, rest: string): Option<Stmt> {
    if rest == "}" then Some(Close(n))
    else if |rest| < 4 || rest[..4] != "if (" then None
    else
      match ReadCond(rest[4..])
      case None => None
      case Some((c, tail)) =>
        if tail == ") {" then Some(Open(n, c))
        else match ReturnedLabel(tail)
          case Some(l) => Some(Guard(n, c, l))
          case None => None
  }

  /** The label of a tail `) return "label"`. */
  function ReturnedLabel(tail: string): Option<string> {
    if |tail| >= 11 && tail[..10] == ") return \"" && tail[|tail| - 1] == '"' then
      Some(tail[10..|tail| - 1])
    else None
  }

  /** A statement the compiler can push: word names and labels, `[0-9.]+` thresholds. */
  predicate Emittable(s: Stmt) {
    match s
    case Open(_, c) => IsWord(c.name) && IsThreshold(c.threshold)
    case Guard(_, c, l) => IsWord(c.name) && IsThreshold(c.threshold) && IsWord(l)
    case Close(_) => true
  }

  lemma {:induction false} TabSpanOf(n: nat, u: string)
    requires u == [] || u[0] != '\t'
    ensures TabSpan(Tabs(n) + u) == n
  {
    if n > 0 {
      TabSpanOf(n - 1, u);
      assert (Tabs(n) + u)[1..] == Tabs(n - 1) + u;
    } else {
      assert Tabs(n) + u == u;
    }
  }

  /** After a word and a space, the reader looks for an operator. */
  lemma ReadCondWord(w: string, x: string)
    requires IsWord(w)
    ensures ReadCond(w + (" " + x)) ==
      match OpAt(x)
      case None => None
      case Some((op, k)) =>
        var n := ThresholdSpan(x[k..]);
        if n == 0 then None else Some((Cond(w, op, x[k..][..n]), x[k..][n..]))
  {
    WordSpanOf(w, " " + x);
    Parts(w, " " + x);
    Parts(" ", x);
  }

  /** An operator, a space, a threshold and a tail that does not continue the threshold. */
  lemma ReadOpThreshold(op: Op, th: string, tail: string)
    requires IsThreshold(th)
    requires tail != [] && !IsThresholdChar(tail[0])
    ensures OpAt(OpText(op) + " " + (th + tail)) == Some((op, |OpText(op)| + 1))
    ensures (OpText(op) + " " + (th + tail))[|OpText(op)| + 1..] == th + tail
    ensures ThresholdSpan(th + tail) == |th|
    ensures (th + tail)[..|th|] == th && (th + tail)[|th|..] == tail
  {
    OpAtOf(op, th + tail);
    Parts(OpText(op) + " ", th + tail);
    ThresholdSpanOf(th, tail);
    Parts(th, tail);
  }

  lemma ReadCondOf(c: Cond, tail: string)
    requires IsWord(c.name) && IsThreshold(c.threshold)
    requires tail != [] && !IsThresholdChar(tail[0])
    ensures ReadCond(CondText(c) + tail) == Some((c, tail))
  {
    var rest := OpText(c.op) + " " + (c.threshold + tail);
    assert CondText(c) + tail == c.name + (" " + rest);
    ReadCondWord(c.name, rest);
    ReadOpThreshold(c.op, c.threshold, tail);
  }

  lemma ReadTabs(n: nat, body: string)
    requires body != [] && body[0] != '\t'
    ensures ReadStmt(Tabs(n) + body) == ReadBody(n, body)
  {
    TabSpanOf(n, body);
    Parts(Tabs(n), body);
  }

  /** A body text that starts with `if (` is read as a condition and a tail. */
  lemma ReadBodyIf(n: nat, x: string)
    ensures ReadBody(n, "if (" + x) ==
      match ReadCond(x)
      case None => None
      case Some((c, tail)) =>
        if tail == ") {" then Some(Open(n, c))
        else match ReturnedLabel(tail)
          case Some(l) => Some(Guard(n, c, l))
          case None => None
  {
    Parts("if (", x);
    assert |"if (" + x| >= 4;
  }

  lemma ReadOpen(n: nat, c: Cond)
    requires IsWord(c.name) && IsThreshold(c.threshold)
    ensures ReadBody(n, "if (" + (CondText(c) + ") {")) == Some(Open(n, c))
  {
    ReadBodyIf(n, CondText(c) + ") {");
    ReadCondOf(c, ") {");
  }

  lemma ReturnedLabelOf(l: string)
    ensures ReturnedLabel(") return \"" + (l + "\"")) == Some(l)
    ensures ") return \"" + (l + "\"") != ") {"
  {
    var tail := ") return \"" + (l + "\"");
    Parts(") return \"", l + "\"");
    Parts(l, "\"");
    SliceOfDrop(tail, 10, |tail| - 1);
    assert tail[2] == 'r';
  }

  lemma ReadGuard(n: nat, c: Cond, l: string)
    requires IsWord(c.name) && IsThreshold(c.threshold)
    ensures ReadBody(n, "if (" + (CondText(c) + (") return \"" + (l + "\"")))) == Some(Guard(n, c, l))
  {
    var tail := ") return \"" + (l + "\"");
    ReadBodyIf(n, CondText(c) + tail);
    ReadCondOf(c, tail);
    ReturnedLabelOf(l);
  }

  /** Reading a rendered statement gives the statement back. */
  lemma ReadRender(s: Stmt)
    requires Emittable(s)
    ensures ReadStmt(Render(s)) == Some(s)
  {
    match s
    case Close(t) =>
      ReadTabs(t, "}");
    case Open(t, c) =>
      ReadTabs(t, "if (" + (CondText(c) + ") {"));
      ReadOpen(t, c);
    case Guard(t, c, l) =>
      ReadTabs(t, "if (" + (CondText(c) + (") return \"" + (l + "\""))));
      ReadGuard(t, c, l);
  }

  // ---------------------------------------------------------------------
  // Reading the header back
  // ---------------------------------------------------------------------

  /** The names of a non-empty `, `-separated list of words. */
  function ReadNames(s: string): Option<seq<string>>
    decreases |s|
  {
    var w := WordSpan(s);
    if w == 0 then None
    else if w == |s| then Some([s])
    else if w + 2 <= |s| && s[w..w + 2] == ", " then
      match ReadNames(s[w + 2..])
      case None => None
      case Some(r) => Some([s[..w]] + r)
    else None
  }

  /** The names a header destructures. */
  function ReadHeader(h: string): Option<seq<string>> {
    var p := |Prologue|;
    var e := |Epilogue|;
    if |h| < p + e || h[..p] != Prologue || h[|h| - e..] != Epilogue then None
    else if h[p..|h| - e] == "" then Some([])
    else ReadNames(h[p..|h| - e])
  }

  lemma {:induction false} ReadJoin(vs: seq<string>)
    requires vs != []
    requires forall i :: 0 <= i < |vs| ==> IsWord(vs[i])
    ensures ReadNames(Join(vs)) == Some(vs)
  {
    if |vs| == 1 {
      WordSpanOf(vs[0], "");
      assert vs[0] + "" == vs[0];
      assert [vs[0]] == vs;
    } else {
      var rest := Join(vs[1..]);
      ReadJoin(vs[1..]);
      WordSpanOf(vs[0], ", " + rest);
      Parts(vs[0], ", " + rest);
      Parts(", ", rest);
      assert [vs[0]] + vs[1..] == vs;
    }
  }

  lemma JoinNonEmpty(vs: seq<string>)
    requires vs != [] && IsWord(vs[0])
    ensures Join(vs) != ""
  {
  }

  /** The header destructures exactly the given names, in order. */
  lemma ReadHeaderOf(vars: seq<string>)
    requires forall i :: 0 <= i < |vars| ==> IsWord(vars[i])
    ensures ReadHeader(Header(vars)) == Some(vars)
  {
    var h := Header(vars);
    var j := Join(vars);
    assert h == Prologue + j + Epilogue;
    assert h[..|Prologue|] == Prologue;
    assert h[|h| - |Epilogue|..] == Epilogue;
    assert h[|Prologue|..|h| - |Epilogue|] == j;
    if vars != [] {
      JoinNonEmpty(vars);
      ReadJoin(vars);
    }
  }
}
