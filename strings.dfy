/**
 * Text helpers of the compiler: splitting the dump on newlines (as
 * `String.prototype.split("\n")` does) and the tab runs that indent the
 * emitted lines (`"\t".repeat(n)`).
 */
module Strings {
  import opened Wrappers

  /** `"\t".repeat(n)`. */
  function Tabs(n: nat): (r: string)
    ensures |r| == n
    ensures forall i :: 0 <= i < n ==> r[i] == '\t'
  {
    if n == 0 then "" else "\t" + Tabs(n - 1)
  }

  /** The first position of `c` in `s`, if any (`s.indexOf(c)`). */
  function IndexOf(s: string, c: char): (r: Option<nat>)
    ensures r.None? <==> c !in s
    ensures r.Some? ==> r.value < |s| && s[r.value] == c && c !in s[..r.value]
  {
    if s == [] then None
    else if s[0] == c then Some(0)
    else match IndexOf(s[1..], c)
      case None => None
      case Some(i) =>
        assert s[1..][..i] == s[1..i + 1];
        assert s[..i + 1] == [s[0]] + s[1..][..i];
        Some(i + 1)
  }

  /** `s.split("\n")`: every piece between newlines, empty pieces included. */
  function SplitLines(s: string): (r: seq<string>)
    ensures |r| >= 1
    ensures forall i :: 0 <= i < |r| ==> '\n' !in r[i]
    decreases |s|
  {
    match IndexOf(s, '\n')
    case None => [s]
    case Some(i) => [s[..i]] + SplitLines(s[i + 1..])
  }

  /** `ls.join("\n")`. */
  function JoinLines(ls: seq<string>): string
    requires |ls| >= 1
  {
    if |ls| == 1 then ls[0] else ls[0] + "\n" + JoinLines(ls[1..])
  }

  /** Joining a line in front of others. */
  lemma JoinCons(h: string, rest: seq<string>)
    requires |rest| >= 1
    ensures JoinLines([h] + rest) == h + "\n" + JoinLines(rest)
  {
    assert ([h] + rest)[0] == h;
    assert ([h] + rest)[1..] == rest;
  }

  /** A text is the part before a newline, the newline and the part after it. */
  lemma AroundNewline(s: string, i: nat)
    requires i < |s| && s[i] == '\n'
    ensures s == s[..i] + "\n" + s[i + 1..]
  {
    assert s == s[..i] + s[i..];
    assert s[i..] == "\n" + s[i + 1..];
  }

  /** Joining the pieces again gives back the text: no character is lost by the split. */
  lemma {:induction false} JoinSplit(s: string)
    ensures JoinLines(SplitLines(s)) == s
    decreases |s|
  {
    match IndexOf(s, '\n')
    case None =>
    case Some(i) =>
      var rest := SplitLines(s[i + 1..]);
      assert SplitLines(s) == [s[..i]] + rest;
      assert JoinLines(rest) == s[i + 1..] by {
        JoinSplit(s[i + 1..]);
      }
      assert JoinLines([s[..i]] + rest) == s[..i] + "\n" + JoinLines(rest) by {
        JoinCons(s[..i], rest);
      }
      AroundNewline(s, i);
  }

  /** Splitting a join of newline-free lines gives back exactly those lines. */
  lemma {:induction false} SplitJoin(ls: seq<string>)
    requires |ls| >= 1
    requires forall i :: 0 <= i < |ls| ==> '\n' !in ls[i]
    ensures SplitLines(JoinLines(ls)) == ls
  {
    if |ls| > 1 {
      var h, rest := ls[0], ls[1..];
      assert SplitLines(JoinLines(rest)) == rest by {
        SplitJoin(rest);
      }
      assert JoinLines(ls) == h + "\n" + JoinLines(rest);
      SplitCons(h, JoinLines(rest));
      assert [h] + rest == ls;
    } else {
      assert IndexOf(ls[0], '\n').None?;
    }
  }

  /** The split of a newline-free line, a newline and more text. */
  lemma SplitCons(a: string, b: string)
    requires '\n' !in a
    ensures SplitLines(a + "\n" + b) == [a] + SplitLines(b)
  {
    IndexOfConcat(a, b);
    Halves(a, b);
  }

  lemma Halves(a: string, b: string)
    ensures (a + "\n" + b)[..|a|] == a
    ensures (a + "\n" + b)[|a| + 1..] == b
  {
  }

  lemma IndexOfConcat(a: string, b: string)
    requires '\n' !in a
    ensures IndexOf(a + "\n" + b, '\n') == Some(|a|)
  {
    var s := a + "\n" + b;
    assert s[..|a|] == a;
    assert s[|a|] == '\n';
  }
}
