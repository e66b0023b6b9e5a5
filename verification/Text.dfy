/** The string operations of Go's standard library that the proxy's parsers use, on byte strings. */
module Text {

  /** `strings.IndexByte`, with the length in place of -1. */
  function IndexOf(s: string, c: char): (i: nat)
    ensures i <= |s|
    ensures i < |s| ==> s[i] == c
    ensures c !in s[..i]
    ensures i == |s| <==> c !in s
  {
    if s == "" || s[0] == c then 0 else
      var j := IndexOf(s[1..], c);
      assert s == [s[0]] + s[1..] && s[..j + 1] == [s[0]] + s[1..][..j];
      j + 1
  }

  /** The first occurrence is the end of any prefix that avoids the character. */
  lemma {:induction false} IndexAfter(a: string, c: char, b: string)
    requires c !in a
    ensures IndexOf(a + [c] + b, c) == |a|
  {
    if a == "" {
      assert (a + [c] + b)[0] == c;
    } else {
      assert (a + [c] + b)[1..] == a[1..] + [c] + b;
      IndexAfter(a[1..], c, b);
    }
  }

  /** What lies in a window of a longer string. */
  lemma Window(s: string, i: nat, x: string)
    requires i + |x| <= |s| && s[i..i + |x|] == x
    ensures forall k :: 0 <= k < |x| ==> s[i + k] == x[k]
    ensures forall j, k :: 0 <= j <= k <= |x| ==> s[i + j..i + k] == x[j..k]
  {
    forall k | 0 <= k < |x| ensures s[i + k] == x[k] {
      assert s[i..i + |x|][k] == s[i + k];
    }
  }

  /** `strings.Split` on a one-byte separator. */
  function Split(s: string, c: char): (parts: seq<string>)
    ensures |parts| >= 1
    decreases |s|
  {
    var i := IndexOf(s, c);
    if i == |s| then [s] else [s[..i]] + Split(s[i + 1..], c)
  }

  function Join(parts: seq<string>, c: char): string {
    if parts == [] then ""
    else if |parts| == 1 then parts[0]
    else parts[0] + [c] + Join(parts[1..], c)
  }

  lemma {:induction false} JoinAvoids(parts: seq<string>, sep: char, c: char)
    requires c != sep && forall p :: p in parts ==> c !in p
    ensures c !in Join(parts, sep)
  {
    if |parts| > 0 {
      assert parts[0] in parts;
      JoinAvoids(parts[1..], sep, c);
    }
  }

  lemma {:induction false} JoinEnds(parts: seq<string>, sep: char, c: char)
    requires parts != [] && forall p :: p in parts ==> p != "" && p[|p| - 1] != c
    ensures Join(parts, sep) != "" && Join(parts, sep)[|Join(parts, sep)| - 1] != c
  {
    assert parts[0] in parts;
    if |parts| > 1 {
      JoinEnds(parts[1..], sep, c);
    }
  }

  lemma JoinCons(head: string, rest: seq<string>, c: char)
    requires rest != []
    ensures Join([head] + rest, c) == head + [c] + Join(rest, c)
  {
    assert ([head] + rest)[1..] == rest;
  }

  lemma SplitUnfolds(s: string, c: char)
    ensures var i := IndexOf(s, c);
      Split(s, c) == if i == |s| then [s] else [s[..i]] + Split(s[i + 1..], c)
  {
    hide IndexOf;
  }

  /** Everything before the first separator is the first part. */
  lemma SplitFront(a: string, c: char, b: string)
    requires c !in a
    ensures Split(a + [c] + b, c) == [a] + Split(b, c)
  {
    IndexAfter(a, c, b);
    SplitUnfolds(a + [c] + b, c);
    hide Split, IndexOf;
    assert (a + [c] + b)[..|a|] == a && (a + [c] + b)[|a| + 1..] == b;
  }

  lemma {:induction false} JoinSplit(s: string, c: char)
    ensures Join(Split(s, c), c) == s
    decreases |s|
  {
    SplitUnfolds(s, c);
    hide Split, IndexOf;
    var i := IndexOf(s, c);
    if i < |s| {
      JoinSplit(s[i + 1..], c);
      JoinCons(s[..i], Split(s[i + 1..], c), c);
      assert s == s[..i] + [c] + s[i + 1..];
    }
  }

  lemma {:induction false} SplitJoin(parts: seq<string>, c: char)
    requires parts != [] && forall p :: p in parts ==> c !in p
    ensures Split(Join(parts, c), c) == parts
  {
    if |parts| == 1 {
      assert parts == [parts[0]];
    } else {
      hide Split;
      SplitFront(parts[0], c, Join(parts[1..], c));
      SplitJoin(parts[1..], c);
      assert parts == [parts[0]] + parts[1..];
    }
  }

  /** Splitting after a separator splits the two sides. */
  lemma {:induction false} SplitAround(a: string, c: char, b: string)
    ensures Split(a + [c] + b, c) == Split(a, c) + Split(b, c)
    decreases |a|
  {
    SplitUnfolds(a, c);
    hide Split, IndexOf;
    var i := IndexOf(a, c);
    if i == |a| {
      SplitFront(a, c, b);
    } else {
      var rest := a[i + 1..] + [c] + b;
      assert a + [c] + b == a[..i] + [c] + rest;
      SplitFront(a[..i], c, rest);
      SplitAround(a[i + 1..], c, b);
      assert [a[..i]] + (Split(a[i + 1..], c) + Split(b, c)) == ([a[..i]] + Split(a[i + 1..], c)) + Split(b, c);
    }
  }

  function TrimRight(s: string, c: char): (r: string)
    ensures r <= s
    ensures r == "" || r[|r| - 1] != c
    ensures forall i :: |r| <= i < |s| ==> s[i] == c
  {
    if s == "" || s[|s| - 1] != c then s else TrimRight(s[..|s| - 1], c)
  }

  /** ASCII white space. */
  predicate IsSpace(c: char) {
    c == ' ' || c == '\t' || c == '\n' || c == '\r' || c as int == 11 || c as int == 12
  }

  predicate NoSpace(s: string) {
    forall c :: c in s ==> !IsSpace(c)
  }

  predicate IsBlank(s: string) {
    forall c :: c in s ==> IsSpace(c)
  }

  function TrimLeftSpace(s: string): string {
    if s == "" || !IsSpace(s[0]) then s else TrimLeftSpace(s[1..])
  }

  function TrimRightSpace(s: string): string {
    if s == "" || !IsSpace(s[|s| - 1]) then s else TrimRightSpace(s[..|s| - 1])
  }

  /** `strings.TrimSpace`. */
  function TrimSpace(s: string): string {
    TrimRightSpace(TrimLeftSpace(s))
  }

  lemma TrimSpaceWord(s: string)
    requires NoSpace(s)
    ensures TrimSpace(s) == s
  {
    if s != "" {
      assert s[0] in s && s[|s| - 1] in s;
    }
  }

  /** White space on either side is dropped, and nothing else. */
  lemma {:induction false} TrimSpacePadded(l: string, s: string, r: string)
    requires IsBlank(l) && IsBlank(r) && (s != "" ==> !IsSpace(s[0]) && !IsSpace(s[|s| - 1]))
    ensures TrimSpace(l + s + r) == s
    decreases |l|
  {
    if l != "" {
      assert l[0] in l && (l + s + r)[1..] == l[1..] + s + r;
      TrimSpacePadded(l[1..], s, r);
    } else if s == "" {
      assert l + s + r == r;
      TrimBlank(r);
    } else {
      assert l + s + r == s + r;
      TrimRightPadded(s, r);
    }
  }

  lemma {:induction false} TrimBlank(s: string)
    requires IsBlank(s)
    ensures TrimLeftSpace(s) == ""
  {
    if s != "" {
      assert s[0] in s;
      TrimBlank(s[1..]);
    }
  }

  lemma {:induction false} TrimRightPadded(s: string, r: string)
    requires IsBlank(r) && s != "" && !IsSpace(s[|s| - 1])
    ensures TrimRightSpace(s + r) == s
    decreases |r|
  {
    if r == "" {
      assert s + r == s;
    } else {
      assert r[|r| - 1] in r && (s + r)[..|s + r| - 1] == s + r[..|r| - 1];
      TrimRightPadded(s, r[..|r| - 1]);
    }
  }

  /** Length of the leading run without white space. */
  function WordEnd(s: string): (i: nat)
    ensures i <= |s|
    ensures NoSpace(s[..i])
    ensures i < |s| ==> IsSpace(s[i])
  {
    if s == "" || IsSpace(s[0]) then 0 else
      var j := WordEnd(s[1..]);
      assert s[..j + 1] == [s[0]] + s[1..][..j];
      j + 1
  }

  /** `strings.Fields`. */
  function Fields(s: string): (fs: seq<string>)
    ensures forall f :: f in fs ==> f != "" && NoSpace(f)
    decreases |s|
  {
    if s == "" then []
    else if IsSpace(s[0]) then Fields(s[1..])
    else
      var i := WordEnd(s);
      assert i > 0;
      [s[..i]] + Fields(s[i..])
  }

  lemma {:induction false} WordEndAt(w: string, rest: string)
    requires NoSpace(w) && (rest == "" || IsSpace(rest[0]))
    ensures WordEnd(w + rest) == |w|
  {
    if w == "" {
      assert w + rest == rest;
    } else {
      assert w[0] in w && (w + rest)[1..] == w[1..] + rest;
      WordEndAt(w[1..], rest);
    }
  }

  predicate IsWord(s: string) {
    s != "" && NoSpace(s)
  }

  const NUL: char := 0 as char

  /** A word that can stand in a NUL-separated line. */
  predicate IsToken(s: string) {
    IsWord(s) && NUL !in s
  }

  /** Space-joined words split back into the same words, whatever white space leads. */
  lemma {:induction false} FieldsJoin(ws: seq<string>)
    requires forall w :: w in ws ==> IsWord(w)
    ensures Fields(Join(ws, ' ')) == ws
  {
    assert forall i :: 0 <= i < |ws| ==> ws[i] in ws;
    if |ws| == 1 {
      WordEndAt(ws[0], "");
      assert ws[0] + "" == ws[0] && ws == [ws[0]];
      assert ws[0][0] in ws[0];
      assert ws[0][..|ws[0]|] == ws[0];
    } else if |ws| > 1 {
      var rest := Join(ws[1..], ' ');
      var s := ws[0] + ([' '] + rest);
      assert s == Join(ws, ' ');
      WordEndAt(ws[0], [' '] + rest);
      assert s[0] == ws[0][0] && ws[0][0] in ws[0];
      assert s[..|ws[0]|] == ws[0] && s[|ws[0]|..] == [' '] + rest;
      FieldsJoin(ws[1..]);
      assert ([' '] + rest)[1..] == rest;
      assert ws == [ws[0]] + ws[1..];
    }
  }

  lemma {:induction false} TrimRightKeeps(s: string, c: char, n: nat)
    requires s == "" || s[|s| - 1] != c
    ensures TrimRight(s + Repeat(c, n), c) == s
    decreases n
  {
    if n > 0 {
      assert (s + Repeat(c, n))[..|s| + n - 1] == s + Repeat(c, n - 1);
      TrimRightKeeps(s, c, n - 1);
    } else {
      assert s + Repeat(c, 0) == s;
    }
  }

  function Repeat(c: char, n: nat): (s: string)
    ensures |s| == n
  {
    seq(n, _ => c)
  }
}
