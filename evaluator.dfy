/**
 * What the generated classifier does when it is loaded and called with an
 * object of feature values.
 *
 * The header destructures every collected name from the argument, so a name
 * the caller leaves out is bound to `undefined`, and every comparison with
 * `undefined` is false. The body runs statement by statement: a guarded
 * return whose condition holds returns its label; an opener whose condition
 * fails skips to its matching `}`; one whose condition holds runs its block
 * and, if the block returns nothing, carries on after the `}`. Running off
 * the end returns `undefined`. Nesting follows the braces, never the tabs.
 */
module Evaluator {
  import opened Wrappers
  import opened LineGrammar
  import opened Emitter
  import opened Braces

  /** A bound name's value: a number from the caller, or `undefined`. */
  type Value = Option<int>

  /** The names the header binds. */
  type Scope = map<string, Value>

  datatype Outcome =
    | Returned(className: string) // `return "className"`
    | Undefined                 // the function ran off its end
    | ReferenceError(name: string)
    | NotLoadable               // the generated file is not a valid module

  // ---------------------------------------------------------------------
  // Thresholds: the value of a `[0-9.]+` numeric literal
  // ---------------------------------------------------------------------

  predicate IsDigit(c: char) {
    '0' <= c <= '9'
  }

  predicate IsOctalDigit(c: char) {
    '0' <= c <= '7'
  }

  predicate AllDigits(s: string) {
    forall i :: 0 <= i < |s| ==> IsDigit(s[i])
  }

  /** Digits in `base` (8 or 10), most significant first. */
  function DigitsValue(s: string, base: nat): nat
    requires AllDigits(s)
  {
    if s == [] then 0
    else DigitsValue(s[..|s| - 1], base) * base + ((s[|s| - 1] as int - '0' as int) as nat)
  }

  function Pow10(n: nat): (r: nat)
    ensures r >= 1
  {
    if n == 0 then 1 else 10 * Pow10(n - 1)
  }

  /** A legacy octal integer literal of sloppy-mode JavaScript: `0` followed by octal digits. */
  predicate LegacyOctal(s: string) {
    |s| >= 2 && s[0] == '0' && forall i :: 0 <= i < |s| ==> IsOctalDigit(s[i])
  }

  function DotIndex(s: string): (r: Option<nat>)
    ensures r.Some? ==> r.value < |s| && s[r.value] == '.' && '.' !in s[..r.value]
    ensures r.None? ==> '.' !in s
  {
    if s == [] then None
    else if s[0] == '.' then Some(0)
    else match DotIndex(s[1..])
      case None => None
      case Some(i) =>
        assert s[1..][..i] == s[1..i + 1];
        assert s[..i + 1] == [s[0]] + s[1..][..i];
        Some(i + 1)
  }

  /**
   * The number a threshold denotes when it stands in the generated code, or
   * `None` when the text is not a numeric literal there (more than one dot,
   * no digit, or a legacy octal integer followed by a dot).
   */
  /** The decimal `w.f`: the whole part plus the fraction over the power of ten of its length. */
  function DecimalReading(w: string, f: string): real
    requires AllDigits(w) && AllDigits(f)
  {
    DigitsValue(w, 10) as real + (DigitsValue(f, 10) as real) / (Pow10(|f|) as real)
  }

  function ThresholdValue(t: string): Option<real>
    requires IsThreshold(t)
  {
    match DotIndex(t)
    case None =>
      if LegacyOctal(t) then Some(DigitsValue(t, 8) as real) else Some(DigitsValue(t, 10) as real)
    case Some(k) =>
      var whole := t[..k];
      var frac := t[k + 1..];
      if '.' in frac || (whole == [] && frac == []) || LegacyOctal(whole) then None
      else Some(DecimalReading(whole, frac))
  }

  /** A string of digits holds no dot. */
  lemma DigitsNoDot(s: string)
    requires AllDigits(s)
    ensures '.' !in s
  {
    forall i | 0 <= i < |s| ensures s[i] != '.' {
      assert IsDigit(s[i]);
    }
  }

  /** No character before the first dot `k` of `s` is a dot. */
  lemma BeforeDot(s: string, k: nat)
    requires k <= |s| && '.' !in s[..k]
    ensures forall i :: 0 <= i < k ==> s[i] != '.'
  {
    forall i | 0 <= i < k ensures s[i] != '.' {
      assert s[..k][i] == s[i];
    }
  }

  /** The first dot of `w + "." + f`, when `w` holds none, is the one after `w`. */
  lemma DotAfter(w: string, f: string)
    requires '.' !in w
    ensures DotIndex(w + "." + f) == Some(|w|)
  {
    var s := w + "." + f;
    assert s[|w|] == '.';
    var k := DotIndex(s).value;
    BeforeDot(s, k);
    forall i | 0 <= i < |w| ensures s[i] != '.' {
      assert s[i] == w[i];
    }
  }

  /** Digits on either side of one dot spell a threshold. */
  lemma FractionSpellsThreshold(w: string, f: string)
    requires AllDigits(w) && AllDigits(f)
    ensures IsThreshold(w + "." + f)
  {
    var t := w + "." + f;
    forall i | 0 <= i < |t| ensures IsThresholdChar(t[i]) {
      if i < |w| {
        assert t[i] == w[i];
      } else if i > |w| {
        assert t[i] == f[i - |w| - 1];
      }
    }
  }

  /** A threshold whose first dot is at `k` and holds no other reads as whole part plus fraction. */
  lemma ThresholdAtDot(t: string, k: nat)
    requires IsThreshold(t) && DotIndex(t) == Some(k)
    requires AllDigits(t[..k]) && AllDigits(t[k + 1..])
    requires (t[..k] != [] || t[k + 1..] != []) && !LegacyOctal(t[..k])
    ensures ThresholdValue(t) == Some(DecimalReading(t[..k], t[k + 1..]))
  {
    DigitsNoDot(t[k + 1..]);
  }

  /** A threshold of digits only denotes its decimal reading, unless it is a legacy octal literal. */
  lemma ThresholdWhole(t: string)
    requires t != [] && AllDigits(t) && !LegacyOctal(t)
    ensures IsThreshold(t)
    ensures ThresholdValue(t) == Some(DigitsValue(t, 10) as real)
  {
    DigitsNoDot(t);
  }

  /** A legacy octal threshold denotes its reading in base 8. */
  lemma ThresholdOctal(t: string)
    requires LegacyOctal(t)
    ensures IsThreshold(t) && AllDigits(t)
    ensures ThresholdValue(t) == Some(DigitsValue(t, 8) as real)
  {
    assert AllDigits(t);
    DigitsNoDot(t);
  }

  /**
   * A threshold with one dot, a digit on at least one side of it and no
   * legacy octal whole part denotes its decimal reading.
   */
  lemma ThresholdFraction(w: string, f: string)
    requires AllDigits(w) && AllDigits(f) && (w != [] || f != []) && !LegacyOctal(w)
    ensures IsThreshold(w + "." + f)
    ensures ThresholdValue(w + "." + f) == Some(DecimalReading(w, f))
  {
    var t := w + "." + f;
    FractionSpellsThreshold(w, f);
    DigitsNoDot(w);
    DotAfter(w, f);
    assert t[..|w|] == w;
    assert t[|w| + 1..] == f;
    ThresholdAtDot(t, |w|);
  }

  /** A threshold with two dots is not a numeric literal. */
  lemma ThresholdTwoDots(t: string, i: nat, j: nat)
    requires IsThreshold(t) && i < j < |t| && t[i] == '.' && t[j] == '.'
    ensures ThresholdValue(t) == None
  {
    var k := DotIndex(t).value;
    BeforeDot(t, k);
    assert t[k + 1..][j - k - 1] == '.';
  }

  /** Neither a lone dot nor a legacy octal integer followed by a dot is a numeric literal. */
  lemma ThresholdDotRejected(w: string, f: string)
    requires '.' !in w && IsThreshold(w + "." + f)
    requires LegacyOctal(w) || (w == [] && f == [])
    ensures ThresholdValue(w + "." + f) == None
  {
    var t := w + "." + f;
    DotAfter(w, f);
    assert t[..|w|] == w;
    assert t[|w| + 1..] == f;
  }

  /** `x op t`. */
  predicate Compare(x: real, op: Op, t: real) {
    match op
    case Gt => x > t
    case Lt => x < t
    case Le => x <= t
    case Ge => x >= t
  }

  // ---------------------------------------------------------------------
  // Running the body
  // ---------------------------------------------------------------------

  datatype Test = Holds | Fails | Unbound(name: string)

  /**
   * Evaluates one condition. A name the scope does not bind is a
   * `ReferenceError`; a name bound to `undefined` compares false.
   */
  function Eval(c: Cond, env: Scope): Test {
    if c.name !in env then Unbound(c.name)
    else match env[c.name]
      case None => Fails
      case Some(x) =>
        if !IsThreshold(c.threshold) then Fails
        else match ThresholdValue(c.threshold)
          case None => Fails
          case Some(t) => if Compare(x as real, c.op, t) then Holds else Fails
  }

  /**
   * The position of the `}` that closes the block open at `i - 1`, given
   * that `open` blocks are open before position `i`.
   */
  function MatchClose(ss: seq<Stmt>, i: nat, open: nat): (r: Option<nat>)
    requires open >= 1
    ensures r.Some? ==> i <= r.value < |ss| && ss[r.value].Close?
    decreases |ss| - i
  {
    if i >= |ss| then None
    else match ss[i]
      case Open(_, _) => MatchClose(ss, i + 1, open + 1)
      case Guard(_, _, _) => MatchClose(ss, i + 1, open)
      case Close(_) => if open == 1 then Some(i) else MatchClose(ss, i + 1, open - 1)
  }

  /**
   * Runs a body. Only well-nested bodies are ever run (a body whose
   * braces do not nest counts as `NotLoadable`); for those no `}` is
   * reached outside its block and every opener has its matching `}`.
   */
  function Run(ss: seq<Stmt>, env: Scope): Outcome
    decreases |ss|
  {
    if ss == [] then Undefined
    else match ss[0]
      case Close(_) => Run(ss[1..], env)
      case Guard(_, c, l) =>
        (match Eval(c, env)
         case Unbound(n) => ReferenceError(n)
         case Holds => Returned(l)
         case Fails => Run(ss[1..], env))
      case Open(_, c) =>
        match MatchClose(ss, 1, 1)
        case None => Run(ss[1..], env)
        case Some(j) =>
          match Eval(c, env)
          case Unbound(n) => ReferenceError(n)
          case Fails => Run(ss[j + 1..], env)
          case Holds =>
            var r := Run(ss[1..j], env);
            if r.Undefined? then Run(ss[j + 1..], env) else r
  }

  // ---------------------------------------------------------------------
  // Loading and calling the module
  // ---------------------------------------------------------------------

  /** The reserved words of sloppy-mode JavaScript that `\w+` can spell. */
  const Reserved: set<string> := {
    "break", "case", "catch", "class", "const", "continue", "debugger", "default",
    "delete", "do", "else", "enum", "export", "extends", "false", "finally", "for",
    "function", "if", "import", "in", "instanceof", "new", "null", "return", "super",
    "switch", "this", "throw", "true", "try", "typeof", "var", "void", "while", "with"}

  /** A `\w+` name that JavaScript accepts as a binding identifier. */
  predicate Identifier(n: string) {
    IsWord(n) && !IsDigit(n[0]) && n !in Reserved
  }

  /** A label that can stand between the double quotes of a string literal as it is. */
  predicate PlainLabel(l: string) {
    forall i :: 0 <= i < |l| ==> l[i] != '"' && l[i] != '\\' && !IsLineTerminator(l[i])
  }

  predicate LoadableStmt(s: Stmt) {
    match s
    case Open(_, c) => Identifier(c.name) && IsThreshold(c.threshold) && ThresholdValue(c.threshold).Some?
    case Guard(_, c, l) =>
      Identifier(c.name) && IsThreshold(c.threshold) && ThresholdValue(c.threshold).Some? && PlainLabel(l)
    case Close(_) => true
  }

  /**
   * Whether the generated file counts as loadable: the braces nest, every
   * name is an identifier, every threshold a numeric literal, and no
   * parameter name is repeated (an arrow function rejects duplicates).
   * Names bound at module scope are not modelled: a body that closes the
   * exported function early, which `require` can accept when the names
   * read afterwards are bound there, is counted as not loadable.
   */
  predicate Loadable(ss: seq<Stmt>, vars: seq<string>) {
    Nested(ss) &&
    (forall i :: 0 <= i < |ss| ==> LoadableStmt(ss[i])) &&
    (forall i :: 0 <= i < |vars| ==> Identifier(vars[i])) &&
    (forall i, j :: 0 <= i < j < |vars| ==> vars[i] != vars[j])
  }

  /** What the header `({a, b, ...}) =>` binds for an argument object. */
  function Destructure(vars: seq<string>, args: map<string, int>): (env: Scope)
    ensures forall n :: n in env <==> n in vars
    ensures forall n :: n in vars && n in args ==> env[n] == Some(args[n])
    ensures forall n :: n in vars && n !in args ==> env[n] == None
  {
    map n | n in vars :: if n in args then Some(args[n]) else None
  }

  /** Loading the generated module and calling it with `args`. */
  function Classify(ss: seq<Stmt>, vars: seq<string>, args: map<string, int>): Outcome {
    if Loadable(ss, vars) then Run(ss, Destructure(vars, args)) else NotLoadable
  }
}
