/** For which names the iterative matcher and the documented reading agree on every valid pattern. */
module BracketNames {
  import opened Options
  import opened Text
  import opened Glob

  function MisreadTail(c: char): (tail: string)
    ensures |tail| <= 1 && tail != "-" && tail != "]" && tail != "["
  {
    if c == '-' || 'Y' <= c <= 'z' then "" else [c]
  }

  /**
   * A class that rejects `[`. Passed by as a literal `[`, it leaves a class that starts one character
   * later and so pairs its ranges differently: that one takes `c`.
   */
  function Misread(c: char): string {
    "[[-Y-z" + MisreadTail(c) + "]"
  }

  lemma ListsNext(inner: string, ch: char)
    requires inner != ""
    ensures |inner| > 2 && inner[1] == '-' ==>
      (Lists(inner, ch) <==> inner[0] <= ch <= inner[2] || Lists(inner[3..], ch))
    ensures |inner| <= 2 || inner[1] != '-' ==> (Lists(inner, ch) <==> inner[0] == ch || Lists(inner[1..], ch))
  {
  }

  lemma ListsTail(tail: string, ch: char)
    requires |tail| <= 1
    ensures Lists(tail, ch) <==> tail == [ch]
  {
    if tail != "" {
      ListsNext(tail, ch);
      assert tail[1..] == "";
    }
  }

  lemma OuterLists(tail: string, ch: char)
    requires |tail| <= 1 && tail != "-"
    ensures Lists("[-Y-z" + tail, ch) <==> ch == '-' || ch == 'z' || tail == [ch]
  {
    var inner := "[-Y-z" + tail;
    ListsNext(inner, ch);
    assert inner[3..] == "-z" + tail;
    ListsNext("-z" + tail, ch);
    assert ("-z" + tail)[1..] == "z" + tail;
    ListsNext("z" + tail, ch);
    assert ("z" + tail)[1..] == tail;
    ListsTail(tail, ch);
  }

  lemma InnerLists(tail: string, ch: char)
    requires |tail| <= 1
    ensures Lists("-Y-z" + tail, ch) <==> ch == '-' || 'Y' <= ch <= 'z' || tail == [ch]
  {
    var inner := "-Y-z" + tail;
    ListsNext(inner, ch);
    assert inner[1..] == "Y-z" + tail;
    ListsNext("Y-z" + tail, ch);
    assert ("Y-z" + tail)[3..] == tail;
    ListsTail(tail, ch);
  }

  /** Both classes of the misread text: the outer rejects `[`, the inner takes `c`. */
  lemma MisreadClasses(c: char)
    ensures !Accepts(Misread(c), '[') && Accepts(Misread(c)[1..], c)
  {
    hide Lists;
    var x, tail := Misread(c), MisreadTail(c);
    assert x == "[[-Y-z" + tail + "]";
    assert x[1..|x| - 1] == "[-Y-z" + tail;
    OuterLists(tail, '[');
    var y := x[1..];
    assert y == "[-Y-z" + tail + "]";
    assert y[1..|y| - 1] == "-Y-z" + tail;
    InnerLists(tail, c);
  }

  lemma MisreadChars(c: char)
    ensures var x := Misread(c);
      && |x| >= 7 && x[0] == '[' == x[1] && x[2] == '-' && x[|x| - 1] == ']'
      && (forall k :: 1 < k < |x| ==> x[k] != '[') && (forall k :: 0 <= k < |x| - 1 ==> x[k] != ']')
  {
  }

  /** `Misread(c)` inside a pattern: one class that rejects `[`, or a literal `[` and a class that takes `c`. */
  lemma MisreadTokens(pat: string, i: nat, c: char)
    requires i + |Misread(c)| <= |pat| && pat[i..i + |Misread(c)|] == Misread(c)
    ensures Closed(pat, i) && Closed(pat, i + 1)
    ensures pat[i] == '[' == pat[i + 1]
    ensures TokenEnd(pat, i) == TokenEnd(pat, i + 1) == i + |Misread(c)|
    ensures !Accepts(pat[i..TokenEnd(pat, i)], '[')
    ensures Accepts(pat[i + 1..TokenEnd(pat, i)], c)
  {
    hide Lists, FindClose, Misread, Accepts;
    var x := Misread(c);
    var e := i + |x| - 1;
    MisreadChars(c);
    Window(pat, i, x);
    assert pat[i + 0] == '[' && pat[i + 1] == '[' && pat[i + 2] == '-' && pat[e] == ']';
    forall k | i <= k < e ensures pat[k] != ']' {
      assert pat[i + (k - i)] == x[k - i];
    }
    ClosesAt(pat, i + 1, e);
    ClosesAt(pat, i + 2, e);
    assert pat[i..e + 1] == x && pat[i + 1..e + 1] == x[1..];
    MisreadClasses(c);
  }

  // ------------------------------------------------- a pattern around the misread class

  /** Any `before` characters, the misread class, any `after` characters. */
  function Around(before: nat, c: char, after: nat): string {
    Repeat('?', before) + Misread(c) + Repeat('?', after)
  }

  lemma AroundParts(before: nat, c: char, after: nat)
    ensures var pat, n := Around(before, c, after), before + |Misread(c)|;
      && |pat| == n + after && pat[before..n] == Misread(c)
      && (forall k :: 0 <= k < before ==> pat[k] == '?') && (forall k :: n <= k < |pat| ==> pat[k] == '?')
  {
  }

  lemma AroundIsWellFormed(before: nat, c: char, after: nat)
    ensures WellFormed(Around(before, c, after))
  {
    hide FindClose;
    var pat, x := Around(before, c, after), Misread(c);
    AroundParts(before, c, after);
    MisreadTokens(pat, before, c);
    MisreadChars(c);
    assert forall k :: before <= k < before + |x| ==> pat[k] == pat[before..before + |x|][k - before];
  }

  lemma {:induction false} QuestionTokens(pat: string, j: nat, n: nat)
    requires j <= n <= |pat| && forall k :: j <= k < n ==> pat[k] == '?'
    ensures |Tokens(pat, j)| == n - j + |Tokens(pat, n)|
    ensures Star in Tokens(pat, j) ==> Star in Tokens(pat, n)
    decreases n - j
  {
    if j < n {
      QuestionTokens(pat, j + 1, n);
    }
  }

  lemma {:induction false} QuestionRun(pat: string, name: string, pi: nat, ni: nat, k: nat)
    requires pi + k <= |pat| && ni + k <= |name| && forall j :: pi <= j < pi + k ==> pat[j] == '?'
    ensures Run(pat, name, pi, ni, -1, 0) == Run(pat, name, pi + k, ni + k, -1, 0)
    decreases k
  {
    if k > 0 {
      QuestionRun(pat, name, pi + 1, ni + 1, k - 1);
    }
  }

  /** Single-character tokens fit only a name of their number. */
  lemma SinglesFitTheirLength(ts: seq<Token>, s: string)
    requires Star !in ts && Fits(ts, s)
    ensures |ts| == |s|
  {
    forall q | 0 <= q < |ts| ensures !ts[q].Star? {
      assert ts[q] in ts;
    }
    StripSingles(ts, s, |ts|);
    assert ts[|ts|..] == [];
  }

  /** The tokens are one fewer than the characters, so they cannot be laid along the name. */
  lemma AroundIsNotAligned(name: string, i: nat)
    requires i + 1 < |name|
    ensures !Aligned(Around(i, name[i + 1], |name| - i - 2), name)
  {
    hide FindClose, Misread;
    var c, after := name[i + 1], |name| - i - 2;
    var pat := Around(i, c, after);
    var n := i + |Misread(c)|;
    AroundParts(i, c, after);
    MisreadTokens(pat, i, c);
    QuestionTokens(pat, 0, i);
    QuestionTokens(pat, n, |pat|);
    assert Tokens(pat, i) == [TokenAt(pat, i)] + Tokens(pat, n);
    if cuts :| IsAlignment(Tokens(pat, 0), name, cuts) {
      AlignmentFits(Tokens(pat, 0), name, cuts);
      SinglesFitTheirLength(Tokens(pat, 0), name);
    }
  }

  /** Read as a literal `[` and the later class, the misread class takes two characters. */
  lemma AroundMatches(name: string, i: nat)
    requires i + 1 < |name| && name[i] == '['
    ensures GlobMatch(Around(i, name[i + 1], |name| - i - 2), name)
  {
    hide FindClose, Misread, Accepts;
    var c, after := name[i + 1], |name| - i - 2;
    var pat := Around(i, c, after);
    var n := i + |Misread(c)|;
    AroundParts(i, c, after);
    MisreadTokens(pat, i, c);
    QuestionRun(pat, name, 0, 0, i);
    assert Advance(pat, i, name[i]) == Some(i + 1);
    assert Advance(pat, i + 1, name[i + 1]) == Some(n);
    QuestionRun(pat, name, n, i + 2, after);
    assert Run(pat, name, |pat|, |name|, -1, 0);
  }

  /**
   * The matcher reads every valid pattern as documented on a name iff the name has no `[` before its
   * last character.
   */
  lemma ReadAsDocumentedIff(name: string)
    ensures NoInnerBracket(name) <==>
      forall pat :: WellFormed(pat) ==> (GlobMatch(pat, name) <==> Aligned(pat, name))
  {
    hide GlobMatch, Aligned, WellFormed;
    if NoInnerBracket(name) {
      forall pat | WellFormed(pat) ensures GlobMatch(pat, name) <==> Aligned(pat, name) {
        GlobMatchIsAlignment(pat, name);
      }
    } else {
      var i :| 0 <= i < |name| - 1 && name[i] == '[';
      AroundIsWellFormed(i, name[i + 1], |name| - i - 2);
      AroundMatches(name, i);
      AroundIsNotAligned(name, i);
    }
  }
}
