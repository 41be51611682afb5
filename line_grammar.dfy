/**
 * The line matcher of the compiler: the regular expression
 *
 *   ((\|   )*)([\w_]+) (>|<|<=|>=) ([0-9\.]+)( : ([\w_]+) .*)?$
 *
 * applied with `RegExp.prototype.exec` to one line of the tree dump.
 *
 * At a fixed start position the expression is deterministic: every greedy
 * repetition is followed by a character its own class cannot produce (`|` is
 * not a word character, a word character is followed by a space, the
 * threshold by a space or the end), and the operator alternatives are told
 * apart by the character after the first one. So the expression is written
 * here as a small grammar on a suffix of the line (`MatchAt`), and the
 * missing `^` anchor becomes a search for the leftmost start position
 * (`Search`, `Exec`).
 */
module LineGrammar {
  import opened Wrappers
  import opened Seqs

  /** One level of indentation in the dump: a pipe and three spaces. */
  const Marker: string := "|   "

  /** `k` indentation markers. */
  function Indent(k: nat): (r: string)
    ensures |r| == 4 * k
    ensures forall i :: 0 <= i < |r| ==> r[i] == if i % 4 == 0 then '|' else ' '
  {
    if k == 0 then "" else Marker + Indent(k - 1)
  }

  /** `\w` of a JavaScript regular expression without the `u` flag. */
  predicate IsWordChar(c: char) {
    'a' <= c <= 'z' || 'A' <= c <= 'Z' || '0' <= c <= '9' || c == '_'
  }

  /** The class `[0-9\.]`. */
  predicate IsThresholdChar(c: char) {
    '0' <= c <= '9' || c == '.'
  }

  /** The characters JavaScript's `.` does not match. */
  predicate IsLineTerminator(c: char) {
    c == '\n' || c == '\r' || c == '\U{2028}' || c == '\U{2029}'
  }

  predicate IsWord(s: string) {
    |s| > 0 && forall i :: 0 <= i < |s| ==> IsWordChar(s[i])
  }

  predicate IsThreshold(s: string) {
    |s| > 0 && forall i :: 0 <= i < |s| ==> IsThresholdChar(s[i])
  }

  /** Text that `.*` can consume up to the end of the input. */
  predicate IsRestOfLine(s: string) {
    forall i :: 0 <= i < |s| ==> !IsLineTerminator(s[i])
  }

  /** The four comparison operators of the alternation, in its order. */
  datatype Op = Gt | Lt | Le | Ge

  function OpText(op: Op): string {
    match op
    case Gt => ">"
    case Lt => "<"
    case Le => "<="
    case Ge => ">="
  }

  /** The optional tail ` : label rest`: group 7 and what `.*` consumed. */
  datatype Leaf = Leaf(className: string, stats: string)

  /**
   * What one successful match captures: group 1 (`indent`), group 3
   * (`name`), group 4 (`op`), group 5 (`threshold`) and, when group 6
   * took part, the label of group 7 with the text after it.
   */
  datatype Record = Record(indent: string, name: string, op: Op, threshold: string, leaf: Option<Leaf>)

  /** A match found in a line together with its start position (`match.index`). */
  datatype Match = Match(index: nat, rec: Record)

  /** The shape of a record the expression can capture. */
  predicate WellFormed(m: Record) {
    m.indent == Indent(|m.indent| / 4) &&
    IsWord(m.name) && IsThreshold(m.threshold) &&
    (m.leaf.Some? ==> IsWord(m.leaf.value.className) && IsRestOfLine(m.leaf.value.stats))
  }

  function TailText(leaf: Option<Leaf>): string {
    match leaf
    case None => ""
    case Some(l) => " : " + l.className + " " + l.stats
  }

  /** The text from the operator on. */
  function OperatorText(m: Record): string {
    (OpText(m.op) + " ") + (m.threshold + TailText(m.leaf))
  }

  /** The text after the indentation markers. */
  function ConditionText(m: Record): string {
    m.name + (" " + OperatorText(m))
  }

  /** The exact text that a record was matched from. */
  function Text(m: Record): string {
    m.indent + ConditionText(m)
  }

  /** The greedy `[\w_]+`: the length of the longest prefix of word characters. */
  function WordSpan(s: string): (n: nat)
    ensures n <= |s|
    ensures forall i :: 0 <= i < n ==> IsWordChar(s[i])
    ensures n < |s| ==> !IsWordChar(s[n])
  {
    if s == [] || !IsWordChar(s[0]) then 0 else 1 + WordSpan(s[1..])
  }

  /** The greedy `[0-9\.]+`: the length of the longest prefix of threshold characters. */
  function ThresholdSpan(s: string): (n: nat)
    ensures n <= |s|
    ensures forall i :: 0 <= i < n ==> IsThresholdChar(s[i])
    ensures n < |s| ==> !IsThresholdChar(s[n])
  {
    if s == [] || !IsThresholdChar(s[0]) then 0 else 1 + ThresholdSpan(s[1..])
  }

  /** The greedy `(\|   )*`: how many markers `s` starts with. */
  function Markers(s: string): (k: nat)
    ensures 4 * k <= |s|
    decreases |s|
  {
    if |s| >= 4 && s[..4] == Marker then 1 + Markers(s[4..]) else 0
  }

  /** What the markers consumed is exactly that many markers. */
  lemma {:induction false} MarkersPrefix(s: string)
    ensures s[..4 * Markers(s)] == Indent(Markers(s))
    decreases |s|
  {
    if |s| >= 4 && s[..4] == Marker {
      var k := Markers(s[4..]);
      MarkersPrefix(s[4..]);
      assert s[..4 * (k + 1)] == s[..4] + s[4..][..4 * k];
    }
  }

  /** The alternation `(>|<|<=|>=)` followed by its space; the second component is the length consumed. */
  function OpAt(s: string): (r: Option<(Op, nat)>)
    ensures r.Some? ==> r.value.1 <= |s| && s[..r.value.1] == OpText(r.value.0) + " "
  {
    if |s| >= 2 && s[..2] == "> " then Some((Gt, 2))
    else if |s| >= 2 && s[..2] == "< " then Some((Lt, 2))
    else if |s| >= 3 && s[..3] == "<= " then Some((Le, 3))
    else if |s| >= 3 && s[..3] == ">= " then Some((Ge, 3))
    else None
  }

  /** The optional group `( : ([\w_]+) .*)` followed by `$`, on a non-empty tail. */
  function LeafAt(s: string): (r: Option<Leaf>)
    ensures r.Some? ==> IsWord(r.value.className) && IsRestOfLine(r.value.stats)
    ensures r.Some? ==> s == TailText(r)
  {
    if |s| >= 3 && s[..3] == " : " then
      var u := s[3..];
      var n := WordSpan(u);
      if 0 < n < |u| && u[n] == ' ' && IsRestOfLine(u[n + 1..]) then
        TakeDrop(s, 3);
        SplitAround(u, n);
        Some(Leaf(u[..n], u[n + 1..]))
      else None
    else None
  }

  lemma QuarterOfFour(k: nat)
    ensures (4 * k) / 4 == k && (4 * k) % 4 == 0
  {
  }

  lemma SplitAround(s: string, i: nat)
    requires i < |s| && s[i] == ' '
    ensures s == s[..i] + (" " + s[i + 1..])
  {
    assert s[i..] == " " + s[i + 1..];
    TakeDrop(s, i);
  }

  /** `([0-9\.]+)` and then either the end or the label tail. */
  function ThresholdAt(s: string): (r: Option<(string, Option<Leaf>)>)
    ensures r.Some? ==> IsThreshold(r.value.0) && s == r.value.0 + TailText(r.value.1)
    ensures r.Some? && r.value.1.Some? ==> IsWord(r.value.1.value.className) && IsRestOfLine(r.value.1.value.stats)
  {
    var t := ThresholdSpan(s);
    if t == 0 then None
    else if t == |s| then Some((s, None))
    else match LeafAt(s[t..])
      case None => None
      case Some(l) =>
        TakeDrop(s, t);
        Some((s[..t], Some(l)))
  }

  /** The name, its space, the operator and the rest, on the text after the markers. */
  function ConditionAt(s: string): (r: Option<Record>)
    ensures r.Some? ==> r.value.indent == ""
    ensures r.Some? ==> WellFormed(r.value)
    ensures r.Some? ==> ConditionText(r.value) == s
  {
    var n := WordSpan(s);
    if n == 0 || n == |s| || s[n] != ' ' then None
    else
      var a := s[n + 1..];
      match OpAt(a)
      case None => None
      case Some(o) =>
        match ThresholdAt(a[o.1..])
        case None => None
        case Some(tl) =>
          var m := Record("", s[..n], o.0, tl.0, tl.1);
          TakeDrop(a, o.1);
          SplitAround(s, n);
          Some(m)
  }

  /**
   * The expression anchored at the start of `s` and running to its end. A
   * result is a well-formed record whose text is exactly `s`.
   */
  function MatchAt(s: string): (r: Option<Record>)
    ensures r.Some? ==> WellFormed(r.value)
    ensures r.Some? ==> Text(r.value) == s
  {
    var k := Markers(s);
    match ConditionAt(s[4 * k..])
    case None => None
    case Some(m) =>
      MarkersPrefix(s);
      var r := m.(indent := s[..4 * k]);
      QuarterOfFour(k);
      assert ConditionText(r) == ConditionText(m);
      TakeDrop(s, 4 * k);
      Some(r)
  }

  /**
   * `exec` from position `from` on, for an expression whose anchored form is
   * `anchored`: the match at the leftmost start position at or after `from`
   * from which the expression reaches the end of the line.
   */
  function Search(line: string, from: nat, anchored: string -> Option<Record>): (r: Option<Match>)
    requires from <= |line|
    ensures r.Some? ==> from <= r.value.index <= |line|
    ensures r.Some? ==> anchored(line[r.value.index..]) == Some(r.value.rec)
    ensures r.Some? ==> forall j :: from <= j < r.value.index ==> anchored(line[j..]).None?
    ensures r.None? ==> forall j :: from <= j <= |line| ==> anchored(line[j..]).None?
    decreases |line| - from
  {
    match anchored(line[from..])
    case Some(m) => Some(Match(from, m))
    case None => if from == |line| then None else Search(line, from + 1, anchored)
  }

  /** `condition.exec(line)`; `None` is the `null` of a line that does not match. */
  function Exec(line: string): (r: Option<Match>)
    ensures r.Some? ==> r.value.index <= |line|
    ensures r.Some? ==> MatchAt(line[r.value.index..]) == Some(r.value.rec)
    ensures r.Some? ==> forall j :: 0 <= j < r.value.index ==> MatchAt(line[j..]).None?
    ensures r.None? <==> forall j :: 0 <= j <= |line| ==> MatchAt(line[j..]).None?
  {
    Search(line, 0, MatchAt)
  }

  // ---------------------------------------------------------------------
  // Completeness: every well-formed record is matched back from its text.
  // ---------------------------------------------------------------------

  lemma {:induction false} WordSpanOf(w: string, t: string)
    requires forall i :: 0 <= i < |w| ==> IsWordChar(w[i])
    requires t == [] || !IsWordChar(t[0])
    ensures WordSpan(w + t) == |w|
  {
    if w != [] {
      assert (w + t)[1..] == w[1..] + t;
      WordSpanOf(w[1..], t);
    }
  }

  lemma {:induction false} ThresholdSpanOf(w: string, t: string)
    requires forall i :: 0 <= i < |w| ==> IsThresholdChar(w[i])
    requires t == [] || !IsThresholdChar(t[0])
    ensures ThresholdSpan(w + t) == |w|
  {
    if w != [] {
      assert (w + t)[1..] == w[1..] + t;
      ThresholdSpanOf(w[1..], t);
    }
  }

  lemma Parts(x: string, y: string)
    ensures (x + y)[..|x|] == x
    ensures (x + y)[|x|..] == y
  {
  }

  lemma MarkersNone(t: string)
    requires t == [] || t[0] != '|'
    ensures Markers(t) == 0
  {
    if |t| >= 4 {
      assert t[..4][0] != Marker[0];
    }
  }

  lemma MarkersStep(u: string)
    ensures Markers(Marker + u) == 1 + Markers(u)
  {
    Parts(Marker, u);
  }

  lemma {:induction false} MarkersOf(k: nat, t: string)
    requires t == [] || t[0] != '|'
    ensures Markers(Indent(k) + t) == k
  {
    if k == 0 {
      assert Indent(k) + t == t;
      MarkersNone(t);
    } else {
      assert Indent(k) + t == Marker + (Indent(k - 1) + t);
      MarkersStep(Indent(k - 1) + t);
      MarkersOf(k - 1, t);
    }
  }

  lemma OpAtOf(op: Op, t: string)
    ensures OpAt(OpText(op) + " " + t) == Some((op, |OpText(op)| + 1))
  {
    var s := OpText(op) + " " + t;
    Parts(OpText(op) + " ", t);
    match op
    case Gt =>
    case Lt =>
      assert s[..2][0] == '<';
    case Le =>
      assert s[1] == '=';
      assert s[..2][1] == '=';
    case Ge =>
      assert s[0] == '>' && s[1] == '=';
      assert s[..2][1] == '=';
      assert s[..3][0] == '>';
  }

  lemma LeafAtOf(l: Leaf)
    requires IsWord(l.className) && IsRestOfLine(l.stats)
    ensures LeafAt(TailText(Some(l))) == Some(l)
  {
    var u := l.className + (" " + l.stats);
    assert TailText(Some(l)) == " : " + u;
    Parts(" : ", u);
    WordSpanOf(l.className, " " + l.stats);
    Parts(l.className, " " + l.stats);
    assert u[|l.className| + 1..] == l.stats;
  }

  lemma ThresholdAtOf(t: string, leaf: Option<Leaf>)
    requires IsThreshold(t)
    requires leaf.Some? ==> IsWord(leaf.value.className) && IsRestOfLine(leaf.value.stats)
    ensures ThresholdAt(t + TailText(leaf)) == Some((t, leaf))
  {
    ThresholdSpanOf(t, TailText(leaf));
    Parts(t, TailText(leaf));
    if leaf.Some? {
      LeafAtOf(leaf.value);
    } else {
      assert t + TailText(leaf) == t;
    }
  }

  lemma ConditionAtOf(m: Record)
    requires WellFormed(m)
    ensures ConditionAt(ConditionText(m)) == Some(m.(indent := ""))
  {
    var a := OperatorText(m);
    var tail := m.threshold + TailText(m.leaf);
    WordSpanOf(m.name, " " + a);
    Parts(m.name, " " + a);
    assert ConditionText(m)[|m.name| + 1..] == a;
    OpAtOf(m.op, tail);
    assert a == OpText(m.op) + " " + tail;
    Parts(OpText(m.op) + " ", tail);
    ThresholdAtOf(m.threshold, m.leaf);
  }

  /** The matcher gives back every record it can produce, from that record's text. */
  lemma MatchAtText(m: Record)
    requires WellFormed(m)
    ensures MatchAt(Text(m)) == Some(m)
  {
    var s := Text(m);
    var c := ConditionText(m);
    var k := |m.indent| / 4;
    assert c[0] == m.name[0];
    MarkersOf(k, c);
    assert s == Indent(k) + c;
    assert s[4 * k..] == c;
    ConditionAtOf(m);
  }

  /** A record's own text is matched from its first character. */
  lemma ExecText(m: Record)
    requires WellFormed(m)
    ensures Exec(Text(m)) == Some(Match(0, m))
  {
    MatchAtText(m);
    assert Text(m)[0..] == Text(m);
  }

  /** No text a record is matched from holds a newline. */
  lemma TextSingleLine(m: Record)
    requires WellFormed(m)
    ensures '\n' !in Text(m)
  {
    assert '\n' !in m.indent by {
      assert m.indent == Indent(|m.indent| / 4);
    }
    assert '\n' !in OpText(m.op);
    assert '\n' !in TailText(m.leaf);
  }
}
