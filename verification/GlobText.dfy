/** Segment patterns as text: what the tokens and the classes of a written pattern are. */
module GlobText {
  import opened Options
  import opened Glob

  // ------------------------------------------------------------------- tokens

  function TokenText(t: Token): string {
    match t
    case Star => "*"
    case AnyOne => "?"
    case Class(cls) => cls
    case Lit(c) => [c]
  }

  function Text(ts: seq<Token>): string {
    if ts == [] then "" else TokenText(ts[0]) + Text(ts[1..])
  }

  /** The inside of a class: a `]` or `!` may lead, after that no `]`. */
  predicate ClassBody(x: string) {
    x != "" && ']' !in (if x[0] == ']' || x[0] == '!' then x[1..] else x)
  }

  predicate Writable(t: Token) {
    match t
    case Class(cls) => |cls| >= 3 && cls[0] == '[' && cls[|cls| - 1] == ']' && ClassBody(cls[1..|cls| - 1])
    case Lit(c) => c != '*' && c != '?' && c != '['
    case _ => true
  }

  lemma ClassChars(cls: string)
    requires Writable(Class(cls))
    ensures |cls| >= 3 && cls[0] == '[' && cls[|cls| - 1] == ']'
    ensures forall k :: (if cls[1] == ']' || cls[1] == '!' then 2 else 1) <= k < |cls| - 1 ==> cls[k] != ']'
  {
    var x := cls[1..|cls| - 1];
    assert forall k :: 0 <= k < |x| ==> x[k] == cls[k + 1];
    if x[0] == ']' || x[0] == '!' {
      assert forall k :: 0 <= k < |x| - 1 ==> x[1..][k] == x[k + 1];
    }
  }

  lemma Inside(pre: string, cls: string, post: string)
    ensures var pat := pre + cls + post;
      pat[|pre|..|pre| + |cls|] == cls && forall k :: |pre| <= k < |pre| + |cls| ==> pat[k] == cls[k - |pre|]
  {
  }

  lemma ClassClosesAt(pre: string, cls: string, post: string)
    requires Writable(Class(cls))
    ensures var pat := pre + cls + post;
      && |pre| + |cls| <= |pat| && |cls| >= 3 && pat[|pre|] == '[' && Closed(pat, |pre|)
      && TokenEnd(pat, |pre|) == |pre| + |cls| && pat[|pre|..|pre| + |cls|] == cls
  {
    ClassChars(cls);
    Inside(pre, cls, post);
    hide Writable;
    var pat, i, e := pre + cls + post, |pre|, |pre| + |cls| - 1;
    assert pat[i] == cls[0] && pat[i + 1] == cls[1] && pat[e] == cls[|cls| - 1];
    var from := CloseFrom(pat, i);
    assert forall k :: from <= k < e ==> pat[k] == cls[k - i] && cls[k - i] != ']';
    ClosesThere(pat, from, e);
  }

  lemma ClosesThere(pat: string, j: nat, e: nat)
    requires j <= e < |pat| && pat[e] == ']' && forall k :: j <= k < e ==> pat[k] != ']'
    ensures FindClose(pat, j) == e
  {
  }

  lemma TokenOfText(pre: string, t: Token, post: string)
    requires Writable(t)
    ensures var pat := pre + TokenText(t) + post;
      |pre| < |pat| && TokenAt(pat, |pre|) == t && TokenEnd(pat, |pre|) == |pre| + |TokenText(t)|
  {
    hide FindClose, Closed;
    var pat := pre + TokenText(t) + post;
    if t.Class? {
      ClassClosesAt(pre, t.cls, post);
    } else {
      assert pat[|pre|] == TokenText(t)[0];
    }
  }

  /** Written tokens are read back as the same tokens: each mark means what it should. */
  lemma {:induction false} TokensOfText(pre: string, ts: seq<Token>)
    requires forall t :: t in ts ==> Writable(t)
    ensures Tokens(pre + Text(ts), |pre|) == ts
    decreases |ts|
  {
    hide TokenAt, TokenEnd, TokenText, Writable;
    if ts != [] {
      var t, post := ts[0], Text(ts[1..]);
      assert t in ts;
      var next := pre + TokenText(t);
      assert pre + Text(ts) == next + post;
      TokenOfText(pre, t, post);
      TokensOfText(next, ts[1..]);
      assert ts == [t] + ts[1..];
    }
  }

  /** And every pattern is the text of its tokens. */
  lemma {:induction false} TextOfTokens(pat: string, i: nat)
    requires i <= |pat|
    ensures Text(Tokens(pat, i)) == pat[i..]
    decreases |pat| - i
  {
    hide FindClose, Closed, TokenAt, TokenEnd, TokenText;
    if i < |pat| {
      TextOfTokens(pat, TokenEnd(pat, i));
      assert Tokens(pat, i)[1..] == Tokens(pat, TokenEnd(pat, i));
      TokenIsItsText(pat, i);
      assert pat[i..] == pat[i..TokenEnd(pat, i)] + pat[TokenEnd(pat, i)..];
    }
  }

  lemma TokenIsItsText(pat: string, i: nat)
    requires i < |pat|
    ensures TokenText(TokenAt(pat, i)) == pat[i..TokenEnd(pat, i)]
  {
    hide FindClose;
  }

  // ------------------------------------------------------------------ classes

  /** A member or a range of a class. */
  datatype Item = One(c: char) | Range(lo: char, hi: char) {
    function Text(): string {
      match this
      case One(c) => [c]
      case Range(lo, hi) => [lo, '-', hi]
    }

    predicate Covers(ch: char) {
      match this
      case One(c) => c == ch
      case Range(lo, hi) => lo <= ch <= hi
    }
  }

  function ItemsText(items: seq<Item>): string {
    if items == [] then "" else items[0].Text() + ItemsText(items[1..])
  }

  /** A `-` is a member only at either end of the class. */
  predicate Plain(items: seq<Item>) {
    forall i :: 0 < i < |items| && items[i].Text()[0] == '-' ==> i == |items| - 1 && items[i].One?
  }

  ghost predicate SomeCovers(items: seq<Item>, ch: char) {
    exists i :: 0 <= i < |items| && items[i].Covers(ch)
  }

  /** A written class body lists exactly what its members and ranges cover. */
  lemma {:induction false} ListsItems(items: seq<Item>, ch: char)
    requires Plain(items)
    ensures Lists(ItemsText(items), ch) <==> SomeCovers(items, ch)
  {
    if items != [] {
      var rest := items[1..];
      assert forall i :: 0 <= i < |rest| ==> rest[i] == items[i + 1];
      ListsItems(rest, ch);
      assert SomeCovers(items, ch) <==> items[0].Covers(ch) || SomeCovers(rest, ch) by {
        if SomeCovers(rest, ch) {
          var i :| 0 <= i < |rest| && rest[i].Covers(ch);
          assert items[i + 1].Covers(ch);
        }
      }
      var inner := ItemsText(items);
      if items[0].One? {
        assert inner[1..] == ItemsText(rest);
      } else {
        assert inner[3..] == ItemsText(rest);
      }
    }
  }

  /** A `!` in front turns a class into its complement. */
  lemma NegatedClass(body: string, ch: char)
    requires body == "" || body[0] != '!'
    ensures Accepts("[!" + body + "]", ch) <==> !Accepts("[" + body + "]", ch)
  {
    var negated, positive := "[!" + body + "]", "[" + body + "]";
    assert negated[1..|negated| - 1] == "!" + body && ("!" + body)[1..] == body;
    assert positive[1..|positive| - 1] == body;
  }

  /** A pattern that is one class matches a one-character name iff the class accepts the character. */
  lemma OneClassMatches(body: string, c: char)
    requires ClassBody(body)
    ensures GlobMatch("[" + body + "]", [c]) <==> Accepts("[" + body + "]", c)
  {
    hide Accepts, FindClose, Closed;
    var cls := "[" + body + "]";
    assert cls[1..|cls| - 1] == body;
    ClassClosesAt("", cls, "");
    assert "" + cls + "" == cls && cls[0..|cls|] == cls;
    assert cls[|cls| - 1] == ']';
    assert !AllStars(cls, 1);
    var q := Advance(cls, 0, c);
    if Accepts(cls, c) {
      assert Run(cls, [c], |cls|, 1, -1, 0);
    } else if c == '[' {
      assert !Run(cls, [c], 1, 1, -1, 0);
    }
  }

  lemma AcceptsItems(body: string, items: seq<Item>, c: char)
    requires body == ItemsText(items) && Plain(items) && body != "" && body[0] != '!'
    ensures Accepts("[" + body + "]", c) <==> SomeCovers(items, c)
  {
    hide Lists, ItemsText, Plain, SomeCovers;
    ListsItems(items, c);
    var cls := "[" + body + "]";
    assert cls[1..|cls| - 1] == body;
  }

  /** So a one-character name matches a written class iff some member or range covers it, `!` the reverse. */
  lemma ClassMeansItsItems(items: seq<Item>, c: char)
    requires Plain(items) && ClassBody(ItemsText(items)) && ItemsText(items)[0] != '!' && ItemsText(items)[0] != ']'
    ensures GlobMatch("[" + ItemsText(items) + "]", [c]) <==> SomeCovers(items, c)
    ensures GlobMatch("[!" + ItemsText(items) + "]", [c]) <==> !SomeCovers(items, c)
  {
    hide GlobMatch, ItemsText, Plain, SomeCovers, Accepts;
    var body := ItemsText(items);
    AcceptsItems(body, items, c);
    OneClassMatches(body, c);
    NegatedClass(body, c);
    assert ("!" + body)[1..] == body && "[!" + body + "]" == "[" + ("!" + body) + "]";
    OneClassMatches("!" + body, c);
  }
}
