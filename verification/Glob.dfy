/** Single-segment globs: the iterative matcher and the alignment it decides. */
module Glob {
  import opened Options

  // ------------------------------------------------------------------ classes

  /** The first `]` at or after `j`, or the end of the pattern. */
  function FindClose(pat: string, j: nat): (k: nat)
    requires j <= |pat|
    ensures j <= k <= |pat|
    ensures k < |pat| ==> pat[k] == ']'
    ensures forall i :: j <= i < k ==> pat[i] != ']'
    decreases |pat| - j
  {
    if j == |pat| || pat[j] == ']' then j else FindClose(pat, j + 1)
  }

  lemma ClosesAt(pat: string, j: nat, e: nat)
    requires j <= e < |pat| && pat[e] == ']' && ']' !in pat[j..e]
    ensures FindClose(pat, j) == e
  {
    forall i | j <= i < e ensures pat[i] != ']' {
      assert pat[j..e][i - j] == pat[i];
    }
  }

  /** Where the search for the closing bracket starts: a `]` or `!` right after `[` belongs to the class. */
  function CloseFrom(pat: string, i: nat): nat
    requires i < |pat|
  {
    if i + 1 < |pat| && (pat[i + 1] == ']' || pat[i + 1] == '!') then i + 2 else i + 1
  }

  predicate Closed(pat: string, i: nat)
    requires i < |pat|
  {
    FindClose(pat, CloseFrom(pat, i)) < |pat|
  }

  method ClassEnd(pat: string, i: nat) returns (end: nat, ok: bool)
    requires i < |pat| && pat[i] == '['
    ensures ok <==> Closed(pat, i)
    ensures end == if ok then FindClose(pat, CloseFrom(pat, i)) + 1 else |pat|
  {
    var j := i + 1;
    if j < |pat| && (pat[j] == ']' || pat[j] == '!') {
      j := j + 1;
    }
    while j < |pat|
      invariant CloseFrom(pat, i) <= j <= |pat|
      invariant FindClose(pat, CloseFrom(pat, i)) == FindClose(pat, j)
    {
      if pat[j] == ']' {
        return j + 1, true;
      }
      j := j + 1;
    }
    return |pat|, false;
  }

  /** Whether a class body lists `ch`, as a member or inside a range `a-z`. */
  predicate Lists(inner: string, ch: char) {
    if inner == "" then false
    else if |inner| > 2 && inner[1] == '-' then inner[0] <= ch <= inner[2] || Lists(inner[3..], ch)
    else inner[0] == ch || Lists(inner[1..], ch)
  }

  predicate Accepts(cls: string, ch: char)
    requires |cls| >= 2
  {
    var inner := cls[1..|cls| - 1];
    if inner != "" && inner[0] == '!' then !Lists(inner[1..], ch) else Lists(inner, ch)
  }

  /** A class body without `-` lists exactly its characters. */
  lemma {:induction false} ListsMembers(inner: string, ch: char)
    requires '-' !in inner
    ensures Lists(inner, ch) <==> ch in inner
  {
    if inner != "" {
      ListsMembers(inner[1..], ch);
      assert inner == [inner[0]] + inner[1..];
    }
  }

  method ClassMatch(cls: string, ch: char) returns (m: bool)
    requires |cls| >= 2
    ensures m <==> Accepts(cls, ch)
  {
    var inner := cls[1..|cls| - 1];
    var negate := false;
    if inner != "" && inner[0] == '!' {
      negate := true;
      inner := inner[1..];
    }
    var matched := false;
    var i := 0;
    while i < |inner|
      invariant 0 <= i <= |inner|
      invariant Lists(inner, ch) <==> matched || Lists(inner[i..], ch)
    {
      if i + 2 < |inner| && inner[i + 1] == '-' {
        assert inner[i..][3..] == inner[i + 3..];
        if inner[i] <= ch <= inner[i + 2] {
          matched := true;
        }
        i := i + 3;
      } else {
        assert inner[i..][1..] == inner[i + 1..];
        if inner[i] == ch {
          matched := true;
        }
        i := i + 1;
      }
    }
    m := if negate then !matched else matched;
  }

  // ------------------------------------------------------------------- tokens

  datatype Token = Star | AnyOne | Class(cls: string) | Lit(c: char)

  /** An opening bracket that nothing closes stands for itself. */
  function TokenAt(pat: string, i: nat): (t: Token)
    requires i < |pat|
    ensures t.Class? ==> |t.cls| >= 2
  {
    if pat[i] == '*' then Star
    else if pat[i] == '?' then AnyOne
    else if pat[i] == '[' && Closed(pat, i) then Class(pat[i..TokenEnd(pat, i)])
    else Lit(pat[i])
  }

  function TokenEnd(pat: string, i: nat): (end: nat)
    requires i < |pat|
    ensures i < end <= |pat|
    ensures pat[i] == '[' && Closed(pat, i) ==> end >= i + 2
  {
    if pat[i] == '[' && Closed(pat, i) then FindClose(pat, CloseFrom(pat, i)) + 1 else i + 1
  }

  function Tokens(pat: string, i: nat): (ts: seq<Token>)
    requires i <= |pat|
    ensures forall t :: t in ts && t.Class? ==> |t.cls| >= 2
    decreases |pat| - i
  {
    if i == |pat| then [] else [TokenAt(pat, i)] + Tokens(pat, TokenEnd(pat, i))
  }

  predicate Takes(t: Token, ch: char) {
    match t
    case Star => false
    case AnyOne => true
    case Class(cls) => |cls| >= 2 && Accepts(cls, ch)
    case Lit(c) => c == ch
  }

  /** The cut points split the name into one piece per token, each a piece its token stands for. */
  ghost predicate IsAlignment(ts: seq<Token>, name: string, cuts: seq<nat>) {
    && |cuts| == |ts| + 1 && cuts[0] == 0 && cuts[|ts|] == |name|
    && (forall i, j :: 0 <= i <= j < |cuts| ==> cuts[i] <= cuts[j])
    && (forall i :: 0 <= i < |ts| && !ts[i].Star? ==> cuts[i + 1] == cuts[i] + 1 && Takes(ts[i], name[cuts[i]]))
  }

  /** What the pattern documents: its tokens can be laid along the whole name. */
  ghost predicate Aligned(pat: string, name: string) {
    exists cuts :: IsAlignment(Tokens(pat, 0), name, cuts)
  }

  // --------------------------------------------------- alignment, recursively

  ghost predicate Fits(ts: seq<Token>, s: string)
    decreases |ts|, 0
  {
    if ts == [] then s == ""
    else if ts[0].Star? then FitsSuffix(ts[1..], s, 0)
    else s != "" && Takes(ts[0], s[0]) && Fits(ts[1..], s[1..])
  }

  ghost predicate FitsSuffix(ts: seq<Token>, s: string, lo: nat)
    decreases |ts|, 1
  {
    exists k :: lo <= k <= |s| && Fits(ts, s[k..])
  }

  lemma {:induction false} AlignmentFits(ts: seq<Token>, s: string, cuts: seq<nat>)
    requires IsAlignment(ts, s, cuts)
    ensures Fits(ts, s)
    decreases |ts|
  {
    hide Takes;
    if ts != [] {
      var k := cuts[1];
      assert cuts[0] <= k <= cuts[|ts|];
      var rest := seq(|ts|, i requires 0 <= i < |ts| => if cuts[i + 1] >= k then cuts[i + 1] - k else 0);
      forall i | 1 <= i <= |ts| ensures cuts[i] >= k && rest[i - 1] == cuts[i] - k {}
      forall i | 0 <= i < |ts| - 1 && !ts[1..][i].Star?
        ensures rest[i + 1] == rest[i] + 1 && Takes(ts[1..][i], s[k..][rest[i]])
      {
        assert ts[1..][i] == ts[i + 1];
        assert cuts[i + 2] == cuts[i + 1] + 1 && cuts[i + 2] <= cuts[|ts|];
        assert s[k..][rest[i]] == s[cuts[i + 1]];
      }
      assert IsAlignment(ts[1..], s[k..], rest);
      AlignmentFits(ts[1..], s[k..], rest);
    }
  }

  lemma {:induction false} FitsAlignment(ts: seq<Token>, s: string) returns (cuts: seq<nat>)
    requires Fits(ts, s)
    ensures IsAlignment(ts, s, cuts)
    decreases |ts|
  {
    if ts == [] {
      cuts := [0];
    } else {
      var k: nat := 1;
      if ts[0].Star? {
        k :| 0 <= k <= |s| && Fits(ts[1..], s[k..]);
      }
      var rest := FitsAlignment(ts[1..], s[k..]);
      cuts := PrependCut(ts, s, k, rest);
    }
  }

  lemma PrependCut(ts: seq<Token>, s: string, k: nat, rest: seq<nat>) returns (cuts: seq<nat>)
    requires ts != [] && k <= |s| && IsAlignment(ts[1..], s[k..], rest)
    requires ts[0].Star? || (k == 1 && Takes(ts[0], s[0]))
    ensures IsAlignment(ts, s, cuts)
  {
    hide Takes;
    cuts := [0] + seq(|rest|, i requires 0 <= i < |rest| => rest[i] + k);
    forall i | 0 <= i < |ts| && !ts[i].Star? ensures cuts[i + 1] == cuts[i] + 1 && Takes(ts[i], s[cuts[i]]) {
      if i > 0 {
        assert ts[1..][i - 1] == ts[i];
        assert rest[i] <= rest[|rest| - 1];
        assert s[k..][rest[i - 1]] == s[cuts[i]];
      }
    }
  }

  /** A run of single-character tokens that takes the front of a string can be stripped. */
  lemma {:induction false} StripTaken(ts: seq<Token>, s: string, d: nat)
    requires d <= |ts| && d <= |s| && forall q :: 0 <= q < d ==> Takes(ts[q], s[q])
    ensures Fits(ts, s) <==> Fits(ts[d..], s[d..])
    decreases d
  {
    if d == 0 {
      assert ts[0..] == ts && s[0..] == s;
    } else {
      StripTaken(ts[1..], s[1..], d - 1);
      assert ts[1..][d - 1..] == ts[d..] && s[1..][d - 1..] == s[d..];
    }
  }

  /** Single-character tokens need that many characters. */
  lemma {:induction false} StripSingles(ts: seq<Token>, s: string, d: nat)
    requires d <= |ts| && Fits(ts, s) && forall q :: 0 <= q < d ==> !ts[q].Star?
    ensures d <= |s| && Fits(ts[d..], s[d..])
    decreases d
  {
    if d == 0 {
      assert ts[0..] == ts && s[0..] == s;
    } else {
      StripSingles(ts[1..], s[1..], d - 1);
      assert ts[1..][d - 1..] == ts[d..] && s[1..][d - 1..] == s[d..];
    }
  }

  // ------------------------------------------------------------- the matcher


  /** The branches of the switch other than `*`: where the pattern index goes on character `ch`. */
  function Advance(pat: string, pi: nat, ch: char): (q: Option<nat>)
    requires pi < |pat|
    ensures q.Some? ==> pi < q.value <= |pat|
  {
    if pat[pi] == '?' then Some(pi + 1)
    else if pat[pi] == '[' && Closed(pat, pi) && Accepts(pat[pi..TokenEnd(pat, pi)], ch) then Some(TokenEnd(pat, pi))
    else if pat[pi] == ch then Some(pi + 1)
    else None
  }

  predicate AllStars(pat: string, pi: nat)
    requires pi <= |pat|
  {
    forall i :: pi <= i < |pat| ==> pat[i] == '*'
  }

  /** The loop from a given state: the last star's position and the name offset last tried for it. */
  predicate Run(pat: string, name: string, pi: nat, ni: nat, star: int, starN: nat)
    requires pi <= |pat| && ni <= |name| && -1 <= star < |pat| && starN <= ni
    requires star < pi
    decreases |pat| - star, |name| - starN, |pat| - pi
  {
    if ni == |name| then AllStars(pat, pi)
    else if pi < |pat| && pat[pi] == '*' then Run(pat, name, pi + 1, ni, pi, ni)
    else
      var q := if pi < |pat| then Advance(pat, pi, name[ni]) else None;
      if q.Some? then Run(pat, name, q.value, ni + 1, star, starN)
      else if star >= 0 then Run(pat, name, star + 1, starN + 1, star, starN + 1)
      else false
  }

  predicate GlobMatch(pat: string, name: string) {
    Run(pat, name, 0, 0, -1, 0)
  }

  method SingleMatch(pat: string, name: string) returns (m: bool)
    ensures m <==> GlobMatch(pat, name)
  {
    var pi, ni := 0, 0;
    var star := -1;
    var starN := 0;
    while ni < |name|
      invariant 0 <= pi <= |pat| && 0 <= starN <= ni <= |name| && -1 <= star < pi && star < |pat|
      invariant Run(pat, name, pi, ni, star, starN) == GlobMatch(pat, name)
      decreases |pat| - star, |name| - starN, |pat| - pi
    {
      if pi < |pat| {
        var c := pat[pi];
        if c == '*' {
          star := pi;
          starN := ni;
          pi := pi + 1;
          continue;
        } else if c == '?' {
          pi := pi + 1;
          ni := ni + 1;
          continue;
        } else if c == '[' {
          var end, ok := ClassEnd(pat, pi);
          if ok {
            var inClass := ClassMatch(pat[pi..end], name[ni]);
            if inClass {
              pi := end;
              ni := ni + 1;
              continue;
            }
          }
        }
        if pat[pi] == name[ni] {
          pi := pi + 1;
          ni := ni + 1;
          continue;
        }
      }
      if star >= 0 {
        pi := star + 1;
        starN := starN + 1;
        ni := starN;
        continue;
      }
      return false;
    }
    ghost var p := pi;
    while pi < |pat| && pat[pi] == '*'
      invariant p <= pi <= |pat| && AllStars(pat[..pi], p)
    {
      pi := pi + 1;
    }
    m := pi == |pat|;
    assert m ==> pat[..pi] == pat;
  }

  // ------------------------------------------ the matcher decides alignment

  /** The only place the name may have a `[` is its end. */
  predicate NoInnerBracket(name: string) {
    forall i :: 0 <= i < |name| - 1 ==> name[i] != '['
  }

  /** No class of the pattern can be passed by as a literal `[` with any of the name left. */
  predicate ClassesHold(ts: seq<Token>, name: string) {
    NoInnerBracket(name) || forall t :: t in ts && t.Class? ==> Takes(t, '[')
  }

  /** A class passed by as a literal `[`. */
  predicate PassedBy(pat: string, pi: nat, ch: char)
    requires pi < |pat|
  {
    ch == '[' && TokenAt(pat, pi).Class? && !Takes(TokenAt(pat, pi), ch)
  }

  lemma PassedByAtEnd(pat: string, pi: nat, name: string, ni: nat)
    requires pi < |pat| && ni < |name| && ClassesHold(Tokens(pat, pi), name) && PassedBy(pat, pi, name[ni])
    ensures ni == |name| - 1 && Advance(pat, pi, name[ni]) == Some(pi + 1) && !AllStars(pat, pi + 1)
  {
    assert TokenAt(pat, pi) in Tokens(pat, pi);
    assert pat[TokenEnd(pat, pi) - 1] == ']';
  }

  lemma AdvanceIsToken(pat: string, pi: nat, name: string, ni: nat)
    requires pi < |pat| && ni < |name| && pat[pi] != '*' && !PassedBy(pat, pi, name[ni])
    ensures Advance(pat, pi, name[ni]) == if Takes(TokenAt(pat, pi), name[ni]) then Some(TokenEnd(pat, pi)) else None
  {
  }

  lemma {:induction false} OnlyStarsFitEmpty(pat: string, pi: nat)
    requires pi <= |pat|
    ensures Fits(Tokens(pat, pi), "") <==> AllStars(pat, pi)
    decreases |pat| - pi
  {
    if pi < |pat| && pat[pi] == '*' {
      OnlyStarsFitEmpty(pat, pi + 1);
      var rest := Tokens(pat, pi + 1);
      assert Tokens(pat, pi)[1..] == rest;
      assert ""[0..] == "";
      assert FitsSuffix(rest, "", 0) <==> Fits(rest, "");
    }
  }

  /**
   * The loop state's meaning. Before any star the rest of the pattern must fit the rest of the
   * name; after one, what follows the star must fit some suffix at or beyond the offset last tried.
   */
  ghost predicate Goal(pat: string, name: string, pi: nat, ni: nat, star: int, starN: nat)
    requires pi <= |pat| && ni <= |name| && star < |pat|
  {
    if star < 0 then Fits(Tokens(pat, pi), name[ni..])
    else FitsSuffix(Tokens(pat, star + 1), name, starN)
  }

  /** The tokens between the star and the pattern index took, one each, the characters since `starN`. */
  ghost predicate Tracks(pat: string, name: string, pi: nat, ni: nat, star: int, starN: nat)
    requires pi <= |pat| && ni <= |name| && star < |pat|
  {
    if star < 0 then ClassesHold(Tokens(pat, pi), name)
    else
      var ts, d := Tokens(pat, star + 1), ni - starN;
      && ClassesHold(ts, name)
      && 0 <= d <= |ts| && ts[d..] == Tokens(pat, pi)
      && forall q :: 0 <= q < d ==> Takes(ts[q], name[starN + q])
  }

  /** Behind the last star, only the offset last tried can still use the current position. */
  lemma CurrentPosition(pat: string, name: string, pi: nat, ni: nat, star: nat, starN: nat)
    requires pi <= |pat| && ni <= |name| && star < |pat| && starN <= ni
    requires Tracks(pat, name, pi, ni, star, starN)
    ensures Fits(Tokens(pat, star + 1), name[starN..]) <==> Fits(Tokens(pat, pi), name[ni..])
  {
    var ts, d := Tokens(pat, star + 1), ni - starN;
    forall q | 0 <= q < d ensures Takes(ts[q], name[starN..][q]) {
      assert name[starN..][q] == name[starN + q];
    }
    StripTaken(ts, name[starN..], d);
    assert name[starN..][d..] == name[ni..];
  }

  /** A later star makes the earlier one's other offsets redundant. */
  lemma LaterStar(pat: string, name: string, pi: nat, ni: nat, star: int, starN: nat)
    requires pi < |pat| && pat[pi] == '*' && ni <= |name| && star < |pat| && starN <= ni
    requires Tracks(pat, name, pi, ni, star, starN)
    ensures Goal(pat, name, pi, ni, star, starN) <==> FitsSuffix(Tokens(pat, pi + 1), name, ni)
  {
    var rest := Tokens(pat, pi + 1);
    assert Tokens(pat, pi)[1..] == rest;
    if k :| ni <= k <= |name| && Fits(rest, name[k..]) {
      assert name[ni..][k - ni..] == name[k..];
      assert Fits(Tokens(pat, pi), name[ni..]);
      if star >= 0 {
        CurrentPosition(pat, name, pi, ni, star, starN);
      }
    }
    if star < 0 {
      if Fits(Tokens(pat, pi), name[ni..]) {
        assert FitsSuffix(rest, name[ni..], 0);
        var j :| 0 <= j <= |name[ni..]| && Fits(rest, name[ni..][j..]);
        assert name[ni..][j..] == name[ni + j..];
      }
    } else {
      var ts, d := Tokens(pat, star + 1), ni - starN;
      if k :| starN <= k <= |name| && Fits(ts, name[k..]) {
        StripSingles(ts, name[k..], d);
        assert name[k..][d..] == name[k + d..];
        assert FitsSuffix(rest, name[k + d..], 0);
        var j :| 0 <= j <= |name[k + d..]| && Fits(rest, name[k + d..][j..]);
        assert name[k + d..][j..] == name[k + d + j..];
      }
    }
  }

  /** When the current position fails, the goal moves to the next offset of the last star. */
  lemma NextOffset(pat: string, name: string, pi: nat, ni: nat, star: nat, starN: nat)
    requires pi <= |pat| && ni < |name| && star < |pat| && starN <= ni
    requires Tracks(pat, name, pi, ni, star, starN)
    requires !Fits(Tokens(pat, pi), name[ni..])
    ensures FitsSuffix(Tokens(pat, star + 1), name, starN) <==> FitsSuffix(Tokens(pat, star + 1), name, starN + 1)
  {
    CurrentPosition(pat, name, pi, ni, star, starN);
  }

  /** At the end of the name, only the offset last tried leaves room for the tokens already placed. */
  lemma NameExhausted(pat: string, name: string, pi: nat, star: nat, starN: nat)
    requires pi <= |pat| && star < |pat| && starN <= |name|
    requires Tracks(pat, name, pi, |name|, star, starN)
    ensures FitsSuffix(Tokens(pat, star + 1), name, starN) <==> Fits(Tokens(pat, pi), "")
  {
    var ts, d := Tokens(pat, star + 1), |name| - starN;
    CurrentPosition(pat, name, pi, |name|, star, starN);
    assert name[|name|..] == "";
    if k :| starN <= k <= |name| && Fits(ts, name[k..]) {
      StripSingles(ts, name[k..], d);
      assert k == starN;
    }
  }

  /** One character taken by one token. */
  lemma TakeOne(pat: string, name: string, pi: nat, ni: nat, star: int, starN: nat)
    requires pi < |pat| && ni < |name| && star < |pat| && starN <= ni
    requires Tracks(pat, name, pi, ni, star, starN) && Takes(TokenAt(pat, pi), name[ni])
    ensures Tracks(pat, name, TokenEnd(pat, pi), ni + 1, star, starN)
    ensures Fits(Tokens(pat, pi), name[ni..]) <==> Fits(Tokens(pat, TokenEnd(pat, pi)), name[ni + 1..])
  {
    var now, next := Tokens(pat, pi), Tokens(pat, TokenEnd(pat, pi));
    assert now[1..] == next && name[ni..][1..] == name[ni + 1..];
    if star >= 0 {
      var ts, d := Tokens(pat, star + 1), ni - starN;
      assert ts[d] == now[0];
      assert ts[d + 1..] == ts[d..][1..];
    }
  }

  lemma TracksHold(pat: string, name: string, pi: nat, ni: nat, star: int, starN: nat)
    requires pi <= |pat| && ni <= |name| && star < |pat|
    requires Tracks(pat, name, pi, ni, star, starN)
    ensures ClassesHold(Tokens(pat, pi), name)
  {
    if star >= 0 {
      var ts, d := Tokens(pat, star + 1), ni - starN;
      assert forall t :: t in ts[d..] ==> t in ts;
    }
  }

  lemma StarTracks(pat: string, name: string, pi: nat, ni: nat, star: int, starN: nat)
    requires pi < |pat| && ni <= |name| && star < |pat| && pat[pi] == '*'
    requires Tracks(pat, name, pi, ni, star, starN)
    ensures Tracks(pat, name, pi + 1, ni, pi, ni)
  {
    TracksHold(pat, name, pi, ni, star, starN);
    var rest := Tokens(pat, pi + 1);
    assert Tokens(pat, pi)[1..] == rest && rest[0..] == rest;
    assert forall t :: t in rest ==> t in Tokens(pat, pi);
  }

  lemma Retrack(pat: string, name: string, star: nat, starN: nat)
    requires star < |pat| && starN <= |name| && ClassesHold(Tokens(pat, star + 1), name)
    ensures Tracks(pat, name, star + 1, starN, star, starN)
  {
    assert Tokens(pat, star + 1)[0..] == Tokens(pat, star + 1);
  }

  lemma StuckDoesNotFit(pat: string, name: string, pi: nat, ni: nat)
    requires pi <= |pat| && ni < |name| && (pi < |pat| ==> pat[pi] != '*' && !Takes(TokenAt(pat, pi), name[ni]))
    ensures !Fits(Tokens(pat, pi), name[ni..])
  {
    assert name[ni..][0] == name[ni];
  }

  lemma GoalAtEnd(pat: string, name: string, pi: nat, star: int, starN: nat)
    requires pi <= |pat| && star < |pat| && starN <= |name| && Tracks(pat, name, pi, |name|, star, starN)
    ensures Goal(pat, name, pi, |name|, star, starN) <==> AllStars(pat, pi)
  {
    assert name[|name|..] == "";
    OnlyStarsFitEmpty(pat, pi);
    if star >= 0 {
      NameExhausted(pat, name, pi, star, starN);
    }
  }

  lemma StarGoal(pat: string, name: string, pi: nat, ni: nat, star: int, starN: nat)
    requires pi < |pat| && pat[pi] == '*' && ni <= |name| && star < |pat| && starN <= ni
    requires Tracks(pat, name, pi, ni, star, starN)
    ensures Tracks(pat, name, pi + 1, ni, pi, ni)
    ensures Goal(pat, name, pi, ni, star, starN) <==> Goal(pat, name, pi + 1, ni, pi, ni)
  {
    LaterStar(pat, name, pi, ni, star, starN);
    StarTracks(pat, name, pi, ni, star, starN);
  }

  lemma TakeGoal(pat: string, name: string, pi: nat, ni: nat, star: int, starN: nat)
    requires pi < |pat| && ni < |name| && star < |pat| && starN <= ni
    requires Tracks(pat, name, pi, ni, star, starN) && Takes(TokenAt(pat, pi), name[ni])
    ensures Tracks(pat, name, TokenEnd(pat, pi), ni + 1, star, starN)
    ensures Goal(pat, name, pi, ni, star, starN) <==> Goal(pat, name, TokenEnd(pat, pi), ni + 1, star, starN)
  {
    TakeOne(pat, name, pi, ni, star, starN);
  }

  lemma StuckGoal(pat: string, name: string, pi: nat, ni: nat, star: int, starN: nat)
    requires pi <= |pat| && ni < |name| && star < |pat| && starN <= ni
    requires Tracks(pat, name, pi, ni, star, starN)
    requires pi < |pat| ==> pat[pi] != '*' && !Takes(TokenAt(pat, pi), name[ni])
    ensures star < 0 ==> !Goal(pat, name, pi, ni, star, starN)
    ensures star >= 0 ==> Tracks(pat, name, star + 1, starN + 1, star, starN + 1)
    ensures star >= 0 ==>
      (Goal(pat, name, pi, ni, star, starN) <==> Goal(pat, name, star + 1, starN + 1, star, starN + 1))
  {
    StuckDoesNotFit(pat, name, pi, ni);
    if star >= 0 {
      NextOffset(pat, name, pi, ni, star, starN);
      Retrack(pat, name, star, starN + 1);
    }
  }

  /** A class that the last character of the name passes by leaves no alignment behind the last star. */
  lemma PassedByGoal(pat: string, name: string, pi: nat, ni: nat, star: int, starN: nat)
    requires pi < |pat| && ni == |name| - 1 && star < |pat| && starN <= ni
    requires Tracks(pat, name, pi, ni, star, starN) && PassedBy(pat, pi, name[ni])
    ensures !Goal(pat, name, pi, ni, star, starN)
  {
    StuckDoesNotFit(pat, name, pi, ni);
    if star >= 0 {
      NextOffset(pat, name, pi, ni, star, starN);
      var ts, d := Tokens(pat, star + 1), ni - starN;
      if k :| starN + 1 <= k <= |name| && Fits(ts, name[k..]) {
        StripSingles(ts, name[k..], d);
      }
    }
  }

  lemma {:induction false} RunDecidesGoal(pat: string, name: string, pi: nat, ni: nat, star: int, starN: nat)
    requires pi <= |pat| && ni <= |name| && -1 <= star < |pat| && starN <= ni && star < pi
    requires Tracks(pat, name, pi, ni, star, starN)
    ensures Run(pat, name, pi, ni, star, starN) <==> Goal(pat, name, pi, ni, star, starN)
    decreases |pat| - star, |name| - starN, |pat| - pi
  {
    hide Fits, Takes, TokenAt, FindClose, Tokens, Tracks, Goal, AllStars, ClassesHold, TokenEnd, Advance, PassedBy;
    if ni == |name| {
      GoalAtEnd(pat, name, pi, star, starN);
    } else if pi < |pat| && pat[pi] == '*' {
      StarGoal(pat, name, pi, ni, star, starN);
      RunDecidesGoal(pat, name, pi + 1, ni, pi, ni);
    } else {
      TracksHold(pat, name, pi, ni, star, starN);
      if pi < |pat| && !PassedBy(pat, pi, name[ni]) {
        AdvanceIsToken(pat, pi, name, ni);
      }
      if pi < |pat| && PassedBy(pat, pi, name[ni]) {
        PassedByAtEnd(pat, pi, name, ni);
        PassedByGoal(pat, name, pi, ni, star, starN);
      } else if pi < |pat| && Takes(TokenAt(pat, pi), name[ni]) {
        TakeGoal(pat, name, pi, ni, star, starN);
        RunDecidesGoal(pat, name, TokenEnd(pat, pi), ni + 1, star, starN);
      } else {
        StuckGoal(pat, name, pi, ni, star, starN);
        if star >= 0 {
          RunDecidesGoal(pat, name, star + 1, starN + 1, star, starN + 1);
        }
      }
    }
  }

  /**
   * Remembering only the last star loses no match: the matcher returns true iff the pattern's
   * tokens align with the whole name, whenever no class can be passed by as a literal `[` with some
   * of the name left — in particular for every name without `[` before its last character.
   */
  lemma GlobMatchIsAlignment(pat: string, name: string)
    requires ClassesHold(Tokens(pat, 0), name)
    ensures GlobMatch(pat, name) <==> Aligned(pat, name)
  {
    RunDecidesGoal(pat, name, 0, 0, -1, 0);
    var ts := Tokens(pat, 0);
    assert name[0..] == name;
    if Fits(ts, name) {
      var cuts := FitsAlignment(ts, name);
    }
    if cuts :| IsAlignment(ts, name, cuts) {
      AlignmentFits(ts, name, cuts);
    }
  }

  /** The condition is needed: a class that rejects `[` is passed by as literal text. */
  lemma BracketNameEscapesClass()
    ensures !ClassesHold(Tokens("[a]", 0), "[a]")
    ensures GlobMatch("[a]", "[a]") && !Aligned("[a]", "[a]")
  {
    assert FindClose("[a]", 1) == 2;
    assert "[a]"[0..3] == "[a]";
    assert Tokens("[a]", 0) == [Class("[a]")];
    assert "[a]"[1..2] == "a";
    assert !Lists("a", '[');
    assert Class("[a]") in Tokens("[a]", 0);
    assert Advance("[a]", 0, '[') == Some(1);
    assert Run("[a]", "[a]", 3, 3, -1, 0);
    assert Run("[a]", "[a]", 2, 2, -1, 0);
    assert Run("[a]", "[a]", 1, 1, -1, 0);
  }

  // ------------------------------------------------------------- well-formedness

  /** Every `[` anywhere in the segment, inside a class or not, is closed later on. */
  predicate WellFormed(seg: string) {
    forall i :: 0 <= i < |seg| && seg[i] == '[' ==> Closed(seg, i)
  }

  method ValidGlob(seg: string) returns (ok: bool)
    ensures ok <==> WellFormed(seg)
  {
    for i := 0 to |seg|
      invariant forall k :: 0 <= k < i && seg[k] == '[' ==> Closed(seg, k)
    {
      if seg[i] == '[' {
        var j := i + 1;
        if j < |seg| && (seg[j] == ']' || seg[j] == '!') {
          j := j + 1;
        }
        var found := false;
        while j < |seg|
          invariant CloseFrom(seg, i) <= j <= |seg| && !found
          invariant FindClose(seg, CloseFrom(seg, i)) == FindClose(seg, j)
        {
          if seg[j] == ']' {
            found := true;
            break;
          }
          j := j + 1;
        }
        if !found {
          return false;
        }
      }
    }
    return true;
  }

  /** In a well-formed segment no token is a literal `[`: a surviving bracket always opens a class. */
  lemma {:induction false} WellFormedTokens(seg: string, i: nat)
    requires i <= |seg| && WellFormed(seg)
    ensures Lit('[') !in Tokens(seg, i)
    decreases |seg| - i
  {
    if i < |seg| {
      WellFormedTokens(seg, TokenEnd(seg, i));
    }
  }
}
