/**
 * Which lines the matcher skips. The loop of the compiler `continue`s on
 * every line whose `exec` is `null`; this module proves that whole families
 * of lines a tree dump contains are of that kind, whatever position the
 * unanchored search starts from: lines without a comparison operator (blank
 * lines, the dump's header and footer), lines ending in a line terminator
 * (a carriage return left by the split on "\n"), labelled lines with nothing
 * after the label, and lines with a negative threshold.
 */
module UnmatchedLines {
  import opened Wrappers
  import opened LineGrammar
  import opened Seqs

  predicate IsOpChar(c: char) {
    c == '<' || c == '>'
  }

  /** No comparison character anywhere in `s`. */
  predicate OpFree(s: string) {
    forall i :: 0 <= i < |s| ==> !IsOpChar(s[i])
  }

  lemma {:induction false} IndentOpFree(k: nat)
    ensures OpFree(Indent(k))
  {
    if k > 0 {
      IndentOpFree(k - 1);
      assert Indent(k) == Marker + Indent(k - 1);
      forall i | 0 <= i < |Indent(k)| ensures !IsOpChar(Indent(k)[i]) {
        if i >= 4 {
          assert Indent(k)[i] == Indent(k - 1)[i - 4];
        }
      }
    }
  }

  lemma OpFreeConcat(a: string, b: string)
    requires OpFree(a) && OpFree(b)
    ensures OpFree(a + b)
  {
    forall i | 0 <= i < |a + b| ensures !IsOpChar((a + b)[i]) {
      if i >= |a| {
        assert (a + b)[i] == b[i - |a|];
      }
    }
  }

  lemma OpFreeSuffix(s: string, j: nat)
    requires OpFree(s) && j <= |s|
    ensures OpFree(s[j..])
  {
    assert forall i :: 0 <= i < |s| - j ==> s[j..][i] == s[j + i];
  }

  /** Dropping twice is dropping once. */
  lemma DropDrop(s: string, i: nat, j: nat)
    requires i + j <= |s|
    ensures s[i..][j..] == s[i + j..]
  {
  }

  /** The last character of a concatenation with a non-empty right part. */
  lemma LastOfConcat(a: string, b: string)
    requires |b| > 0
    ensures (a + b)[|a + b| - 1] == b[|b| - 1]
  {
  }

  /**
   * In the text of a well-formed record the operator starts right after the
   * markers, the name and one space.
   */
  lemma TextOperator(m: Record)
    requires WellFormed(m)
    ensures |m.indent| + |m.name| + 1 < |Text(m)|
    ensures IsOpChar(Text(m)[|m.indent| + |m.name| + 1])
    ensures Text(m)[|m.indent| + |m.name| + 1..] == OperatorText(m)
  {
    var a := m.indent + m.name + " ";
    assert Text(m) == a + OperatorText(m);
    Parts(a, OperatorText(m));
    assert OperatorText(m)[0] == OpText(m.op)[0];
  }

  /** Every text the expression matches contains a comparison character. */
  lemma MatchedNotOpFree(s: string)
    ensures MatchAt(s).Some? ==> !OpFree(s)
  {
    if MatchAt(s).Some? {
      TextOperator(MatchAt(s).value);
    }
  }

  /** A line with no `<` and no `>` matches at no position. */
  lemma NoOperatorNoMatch(line: string)
    requires OpFree(line)
    ensures Exec(line).None?
  {
    forall j | 0 <= j <= |line| ensures MatchAt(line[j..]).None? {
      OpFreeSuffix(line, j);
      MatchedNotOpFree(line[j..]);
    }
  }

  /** Every text the expression matches ends in a character `.` can match. */
  lemma TextLastChar(m: Record)
    requires WellFormed(m)
    ensures |Text(m)| > 0 && !IsLineTerminator(Text(m)[|Text(m)| - 1])
  {
    var r := m.threshold + TailText(m.leaf);
    var p := OpText(m.op) + " ";
    assert Text(m) == (m.indent + (m.name + " ") + p) + r;
    LastOfConcat(m.indent + (m.name + " ") + p, r);
    match m.leaf
    case None =>
      assert r == m.threshold;
    case Some(l) =>
      var t := " : " + l.className + " " + l.stats;
      LastOfConcat(m.threshold, t);
      if l.stats == [] {
        assert t == " : " + l.className + " ";
      } else {
        LastOfConcat(" : " + l.className + " ", l.stats);
      }
  }

  /** Every text the expression matches is non-empty and ends in no line terminator. */
  lemma MatchedLastChar(s: string)
    ensures MatchAt(s).Some? ==> |s| > 0 && !IsLineTerminator(s[|s| - 1])
  {
    if MatchAt(s).Some? {
      TextLastChar(MatchAt(s).value);
    }
  }

  /**
   * A line whose last character is a line terminator never matches: in
   * particular a line of a dump written with "\r\n" line ends, since the
   * compiler splits on "\n" only and leaves the "\r" in place.
   */
  lemma TerminatedLineNoMatch(line: string)
    requires |line| > 0 && IsLineTerminator(line[|line| - 1])
    ensures Exec(line).None?
  {
    forall j | 0 <= j <= |line| ensures MatchAt(line[j..]).None? {
      TerminatedSuffix(line, j);
    }
  }

  lemma TerminatedSuffix(line: string, j: nat)
    requires |line| > 0 && IsLineTerminator(line[|line| - 1]) && j <= |line|
    ensures MatchAt(line[j..]).None?
  {
    var t := line[j..];
    MatchedLastChar(t);
    if j < |line| {
      assert t[|t| - 1] == line[|line| - 1];
    }
  }

  /** What follows the operator and its space, whichever operator it is. */
  function AfterOperator(s: string): string {
    if |s| >= 2 && s[1] == ' ' then s[2..] else if |s| >= 3 then s[3..] else ""
  }

  lemma AfterOperatorOf(op: Op, u: string)
    ensures AfterOperator(OpText(op) + " " + u) == u
  {
    Parts(OpText(op) + " ", u);
    var s := OpText(op) + " " + u;
    assert s[1] == (OpText(op) + " ")[1];
  }

  /**
   * If `P` is the only position of a comparison character in `line`, a match
   * at any start position begins its operator at `P`, and what follows the
   * operator there is a threshold with an acceptable tail.
   */
  lemma OperatorAligned(line: string, j: nat, P: nat)
    requires j <= |line|
    requires forall q :: 0 <= q < |line| && IsOpChar(line[q]) ==> q == P
    ensures MatchAt(line[j..]).Some? ==> P < |line| && ThresholdAt(AfterOperator(line[P..])).Some?
  {
    if MatchAt(line[j..]).Some? {
      AlignedRecord(line, j, P, MatchAt(line[j..]).value);
    }
  }

  lemma AlignedRecord(line: string, j: nat, P: nat, m: Record)
    requires j <= |line|
    requires forall q :: 0 <= q < |line| && IsOpChar(line[q]) ==> q == P
    requires WellFormed(m) && line[j..] == Text(m)
    ensures P < |line| && ThresholdAt(AfterOperator(line[P..])).Some?
  {
      OperatorPosition(m, line, j);
      var q := j + |m.indent| + |m.name| + 1;
      assert q == P;
      OperatorTail(line[P..], m);
  }

  /** Where the operator of a record matched at `j` sits in the whole line. */
  lemma OperatorPosition(m: Record, line: string, j: nat)
    requires WellFormed(m) && j <= |line| && line[j..] == Text(m)
    ensures var q := j + |m.indent| + |m.name| + 1;
      q < |line| && IsOpChar(line[q]) && line[q..] == OperatorText(m)
  {
    var s := line[j..];
    TextOperator(m);
    var q := |m.indent| + |m.name| + 1;
    assert line[j + q] == s[q];
    DropDrop(line, j, q);
  }

  /** The text after the operator of a record is a threshold with an acceptable tail. */
  lemma OperatorTail(s: string, m: Record)
    requires WellFormed(m) && s == OperatorText(m)
    ensures ThresholdAt(AfterOperator(s)).Some?
  {
    AfterOperatorOf(m.op, m.threshold + TailText(m.leaf));
    ThresholdAtOf(m.threshold, m.leaf);
  }

  /** A line made of a prefix, one comparison character and a suffix, the two without any. */
  lemma SingleOperator(a: string, c: char, b: string)
    requires OpFree(a) && OpFree(b) && IsOpChar(c)
    ensures forall q :: 0 <= q < |a + [c] + b| && IsOpChar((a + [c] + b)[q]) ==> q == |a|
  {
    var s := a + [c] + b;
    assert forall q :: 0 <= q < |a| ==> s[q] == a[q];
    assert forall q :: |a| < q < |s| ==> s[q] == b[q - |a| - 1];
  }

  lemma ThresholdOpFree(t: string)
    requires IsThreshold(t)
    ensures OpFree(t)
  {
  }

  lemma WordOpFree(w: string)
    requires IsWord(w)
    ensures OpFree(w)
  {
  }

  /** After a threshold, a label without the space it needs is refused. */
  lemma BareTailRejected(thr: string, cls: string)
    requires IsThreshold(thr) && IsWord(cls)
    ensures ThresholdAt(thr + (" : " + cls)).None?
  {
    ThresholdSpanOf(thr, " : " + cls);
    Parts(thr, " : " + cls);
    Parts(" : ", cls);
    WordSpanOf(cls, "");
    assert cls + "" == cls;
  }

  /** A minus sign is not a threshold character. */
  lemma NegativeTailRejected(rest: string)
    ensures ThresholdAt("-" + rest).None?
  {
  }

  /** A line `cond op thr : label` whose label ends the line: no `.*` text follows it. */
  function BareLabelLine(k: nat, name: string, op: Op, thr: string, cls: string): string {
    Indent(k) + name + " " + (OpText(op) + " " + (thr + (" : " + cls)))
  }

  /** `cond op -rest`: a negative threshold. */
  function NegativeLine(k: nat, name: string, op: Op, rest: string): string {
    Indent(k) + name + " " + (OpText(op) + " " + ("-" + rest))
  }

  /** The line's only comparison character is the first one of its operator. */
  lemma OneOperatorIn(k: nat, name: string, op: Op, after: string)
    requires IsWord(name) && OpFree(after)
    ensures var line := Indent(k) + name + " " + (OpText(op) + " " + after);
      forall q :: 0 <= q < |line| && IsOpChar(line[q]) ==> q == 4 * k + |name| + 1
  {
    var line := Indent(k) + name + " " + (OpText(op) + " " + after);
    var a := Indent(k) + name + " ";
    var o := OpText(op)[1..];
    var b := o + " " + after;
    assert OpFree(a) by {
      IndentOpFree(k);
      WordOpFree(name);
      OpFreeConcat(Indent(k), name);
      OpFreeConcat(Indent(k) + name, " ");
    }
    assert OpFree(b) by {
      assert OpFree(o);
      OpFreeConcat(o, " ");
      OpFreeConcat(o + " ", after);
    }
    HeadOut(a, OpText(op), " ", after);
    assert |a| == 4 * k + |name| + 1;
    SingleOperator(a, OpText(op)[0], b);
  }

  /** The text from that character on. */
  lemma OperatorSuffix(k: nat, name: string, op: Op, after: string)
    ensures var line := Indent(k) + name + " " + (OpText(op) + " " + after);
      4 * k + |name| + 1 <= |line| && line[4 * k + |name| + 1..] == OpText(op) + " " + after
  {
    Parts(Indent(k) + name + " ", OpText(op) + " " + after);
  }

  /**
   * A labelled line with nothing after the label matches nowhere: the
   * expression wants a space after the label.
   */
  lemma BareLabelNoMatch(k: nat, name: string, op: Op, thr: string, cls: string)
    requires IsWord(name) && IsThreshold(thr) && IsWord(cls)
    ensures Exec(BareLabelLine(k, name, op, thr, cls)).None?
  {
    var line := BareLabelLine(k, name, op, thr, cls);
    var after := thr + (" : " + cls);
    ThresholdOpFree(thr);
    WordOpFree(cls);
    OpFreeConcat(" : ", cls);
    OpFreeConcat(thr, " : " + cls);
    OneOperatorIn(k, name, op, after);
    OperatorSuffix(k, name, op, after);
    AfterOperatorOf(op, after);
    BareTailRejected(thr, cls);
    forall j | 0 <= j <= |line| ensures MatchAt(line[j..]).None? {
      OperatorAligned(line, j, 4 * k + |name| + 1);
    }
  }

  /** A line whose threshold is negative matches nowhere, as long as no other operator follows. */
  lemma NegativeThresholdNoMatch(k: nat, name: string, op: Op, rest: string)
    requires IsWord(name) && OpFree(rest)
    ensures Exec(NegativeLine(k, name, op, rest)).None?
  {
    var line := NegativeLine(k, name, op, rest);
    OpFreeConcat("-", rest);
    OneOperatorIn(k, name, op, "-" + rest);
    OperatorSuffix(k, name, op, "-" + rest);
    AfterOperatorOf(op, "-" + rest);
    NegativeTailRejected(rest);
    forall j | 0 <= j <= |line| ensures MatchAt(line[j..]).None? {
      OperatorAligned(line, j, 4 * k + |name| + 1);
    }
  }
}
