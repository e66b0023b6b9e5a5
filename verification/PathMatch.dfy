/** gitignore-style path patterns: compilation, matching, and what a match means. */
module PathMatch {
  import opened Options
  import opened Text
  import opened Glob

  datatype Segment = DblStar | Lit(lit: string) {
    function Text(): string {
      if DblStar? then "**" else lit
    }
  }

  datatype Pattern = Pattern(anchored: bool, dirOnly: bool, segs: seq<Segment>)

  // -------------------------------------------------------------- compilation

  function DropTrailingSlash(p: string): string {
    if p != "" && p[|p| - 1] == '/' then p[..|p| - 1] else p
  }

  function DropLeadingSlash(p: string): string {
    if p != "" && p[0] == '/' then p[1..] else p
  }

  predicate GoodSegment(raw: string) {
    raw == "**" || WellFormed(raw)
  }

  function ToSegment(raw: string): Segment {
    if raw == "**" then DblStar else Segment.Lit(raw)
  }

  function ToSegments(raws: seq<string>): (segs: seq<Segment>)
    ensures |segs| == |raws| && forall i :: 0 <= i < |raws| ==> segs[i] == ToSegment(raws[i])
  {
    seq(|raws|, i requires 0 <= i < |raws| => ToSegment(raws[i]))
  }

  function RawSegments(p: string): (raws: seq<string>)
    ensures |raws| >= 1
  {
    Split(DropLeadingSlash(DropTrailingSlash(p)), '/')
  }

  function Compiled(p: string): Option<Pattern> {
    var work := DropTrailingSlash(p);
    if IsBlank(p) || (p != "" && p[0] == '!') || work == "" then None
    else if exists raw :: raw in RawSegments(p) && !GoodSegment(raw) then None
    else Some(Pattern('/' in work, work != p, ToSegments(RawSegments(p))))
  }

  /** The loop over the raw segments; one unclosed class drops the whole pattern. */
  method CompileSegments(raws: seq<string>) returns (r: Option<seq<Segment>>)
    ensures r.Some? <==> forall raw :: raw in raws ==> GoodSegment(raw)
    ensures r.Some? ==> r.value == ToSegments(raws)
  {
    hide WellFormed;
    var segs: seq<Segment> := [];
    for i := 0 to |raws|
      invariant segs == ToSegments(raws)[..i]
      invariant forall j :: 0 <= j < i ==> GoodSegment(raws[j])
    {
      if raws[i] == "**" {
        segs := segs + [DblStar];
        continue;
      }
      var ok := ValidGlob(raws[i]);
      if !ok {
        assert raws[i] in raws && !GoodSegment(raws[i]);
        return None;
      }
      segs := segs + [Segment.Lit(raws[i])];
    }
    r := Some(segs);
  }

  method Compile(p: string) returns (r: Option<Pattern>)
    ensures r == Compiled(p)
  {
    if IsBlank(p) || (p != "" && p[0] == '!') {
      return None;
    }
    hide GoodSegment, IsBlank, Split, ToSegments;
    var dirOnly := p[|p| - 1] == '/';
    var work := DropTrailingSlash(p);
    if work == "" {
      return None;
    }
    var anchored := work[0] == '/' || '/' in work;
    var segs := CompileSegments(Split(DropLeadingSlash(work), '/'));
    if segs.None? {
      return None;
    }
    r := Some(Pattern(anchored, dirOnly, segs.value));
  }

  /** Only a pattern without a slash is unanchored, and it has exactly one segment. */
  lemma UnanchoredIsOneSegment(p: string)
    requires Compiled(p).Some? && !Compiled(p).value.anchored
    ensures |Compiled(p).value.segs| == 1
  {
    var work := DropTrailingSlash(p);
    assert IndexOf(work, '/') == |work|;
    assert DropLeadingSlash(work) == work;
  }

  /** A slash anywhere but at the end anchors a pattern, in front as well; one at the end makes it a directory's. */
  lemma AnchoredIffSlashBeforeEnd(p: string)
    requires Compiled(p).Some?
    ensures Compiled(p).value.anchored <==> exists i :: 0 <= i < |p| - 1 && p[i] == '/'
    ensures Compiled(p).value.dirOnly <==> p[|p| - 1] == '/'
  {
    hide GoodSegment, IsBlank, Split, ToSegments;
    var work := DropTrailingSlash(p);
    if '/' in work {
      var i :| 0 <= i < |work| && work[i] == '/';
      assert p[i] == '/' && i < |p| - 1;
    }
    if i :| 0 <= i < |p| - 1 && p[i] == '/' {
      assert work[i] == '/';
    }
  }

  // A pattern as it is written: segments between slashes, with a slash in front, at the end, or both.

  datatype Written = Written(lead: bool, parts: seq<string>, trail: bool) {
    function Text(): string {
      (if lead then "/" else "") + Join(parts, '/') + (if trail then "/" else "")
    }

    /** The outer slashes are those of `lead` and `trail`, and the text is neither blank nor a negation. */
    predicate Good() {
      && parts != [] && (forall s :: s in parts ==> '/' !in s)
      && (!lead ==> parts[0] != "") && (!trail ==> parts[|parts| - 1] != "")
      && !IsBlank(Text()) && Text()[0] != '!'
    }
  }

  lemma {:induction false} JoinFront(parts: seq<string>, c: char)
    requires parts != [] && forall s :: s in parts ==> c !in s
    ensures parts[0] <= Join(parts, c)
    ensures |parts| == 1 ==> Join(parts, c) == parts[0]
    ensures |parts| > 1 ==> |Join(parts, c)| > |parts[0]| && Join(parts, c)[|parts[0]|] == c
  {
  }

  lemma {:induction false} JoinBack(parts: seq<string>, c: char)
    requires parts != []
    ensures var s, last := Join(parts, c), parts[|parts| - 1];
      last != "" ==> s != "" && s[|s| - 1] == last[|last| - 1]
  {
    if |parts| > 1 {
      JoinBack(parts[1..], c);
    }
  }

  /** What stays of the text when the outer slashes are dropped. */
  lemma WrittenCore(w: Written)
    requires w.Good()
    ensures w.Text() != "" && DropTrailingSlash(w.Text()) == (if w.lead then "/" else "") + Join(w.parts, '/')
    ensures DropTrailingSlash(w.Text()) != ""
    ensures DropLeadingSlash(DropTrailingSlash(w.Text())) == Join(w.parts, '/')
  {
    hide Join, IsBlank;
    var core := Join(w.parts, '/');
    JoinFront(w.parts, '/');
    JoinBack(w.parts, '/');
    assert w.parts[0] in w.parts && w.parts[|w.parts| - 1] in w.parts;
    var last := w.parts[|w.parts| - 1];
    assert !w.lead ==> core != "" && core[0] != '/' by {
      if !w.lead {
        assert core[0] == w.parts[0][0] && w.parts[0][0] in w.parts[0];
      }
    }
    assert !w.trail ==> core != "" && core[|core| - 1] != '/' by {
      if !w.trail {
        assert last[|last| - 1] in last;
      }
    }
    OuterSlashes(w.lead, core, w.trail);
  }

  lemma OuterSlashes(lead: bool, core: string, trail: bool)
    requires !lead ==> core != "" && core[0] != '/'
    requires !trail ==> core != "" && core[|core| - 1] != '/'
    ensures var front, back := if lead then "/" else "", if trail then "/" else "";
      && DropTrailingSlash(front + core + back) == front + core && (lead || trail || core != "" ==> front + core + back != "")
      && DropLeadingSlash(front + core) == core
  {
    var front := if lead then "/" else "";
    if trail {
      assert (front + core + "/")[..|front + core|] == front + core;
    } else {
      assert front + core + "" == front + core;
    }
    if lead {
      assert ("/" + core)[1..] == core;
    } else {
      assert "" + core == core;
    }
  }

  /**
   * Compiling a written pattern: a part `**` takes any number of segments, any other part is a glob for
   * one, and the pattern is kept iff every part is well formed.
   */
  lemma WrittenPatternCompiles(w: Written)
    requires w.Good()
    ensures Compiled(w.Text()).Some? <==> forall s :: s in w.parts ==> s == "**" || WellFormed(s)
    ensures Compiled(w.Text()).Some? ==>
      Compiled(w.Text()).value == Pattern(w.lead || |w.parts| > 1, w.trail,
        seq(|w.parts|, i requires 0 <= i < |w.parts| => if w.parts[i] == "**" then DblStar else Segment.Lit(w.parts[i])))
  {
    hide WellFormed, IsBlank, Split, Join, DropTrailingSlash, DropLeadingSlash;
    WrittenCore(w);
    SplitJoin(w.parts, '/');
    assert RawSegments(w.Text()) == w.parts;
    if Compiled(w.Text()).Some? {
      WrittenShape(w);
    }
  }

  lemma WrittenShape(w: Written)
    requires w.Good()
    ensures '/' in DropTrailingSlash(w.Text()) <==> w.lead || |w.parts| > 1
    ensures DropTrailingSlash(w.Text()) != w.Text() <==> w.trail
  {
    hide IsBlank, Join;
    WrittenCore(w);
    JoinFront(w.parts, '/');
    var core := Join(w.parts, '/');
    assert w.parts[0] in w.parts;
    if w.lead {
      assert ("/" + core)[0] == '/';
    } else {
      assert "" + core == core;
      if |w.parts| > 1 {
        assert core[|w.parts[0]|] == '/';
      }
    }
  }

  function SegmentTexts(segs: seq<Segment>): seq<string> {
    seq(|segs|, i requires 0 <= i < |segs| => segs[i].Text())
  }

  /** Compilation loses nothing: slashes around the joined segment texts give the pattern back. */
  lemma CompiledText(p: string)
    requires Compiled(p).Some?
    ensures var c := Compiled(p).value;
      p == (if p[0] == '/' then "/" else "") + Join(SegmentTexts(c.segs), '/') + (if c.dirOnly then "/" else "")
  {
    hide WellFormed, IsBlank, Split, Join, GoodSegment;
    var c := Compiled(p).value;
    var work := DropTrailingSlash(p);
    JoinSplit(DropLeadingSlash(work), '/');
    assert SegmentTexts(c.segs) == RawSegments(p);
    assert work[0] == p[0];
  }

  /** A non-blank pattern that compilation drops: a config typo a deny list must not ignore. */
  method IsMalformed(p: string) returns (bad: bool)
    ensures bad <==> !IsBlank(p) && Compiled(p).None?
  {
    if IsBlank(p) {
      return false;
    }
    var c := Compile(p);
    return c.None?;
  }

  /** The compiled patterns that survive, in order. */
  function Survivors(patterns: seq<string>): seq<Pattern> {
    if patterns == [] then []
    else
      var n := |patterns| - 1;
      Survivors(patterns[..n]) + (if Compiled(patterns[n]).Some? then [Compiled(patterns[n]).value] else [])
  }

  method New(patterns: seq<string>) returns (m: seq<Pattern>)
    ensures m == Survivors(patterns)
  {
    m := [];
    for i := 0 to |patterns|
      invariant m == Survivors(patterns[..i])
    {
      var c := Compile(patterns[i]);
      if c.Some? {
        m := m + [c.value];
      }
      assert patterns[..i + 1][..i] == patterns[..i];
    }
    assert patterns[..|patterns|] == patterns;
  }

  // ----------------------------------------------------------------- matching

  predicate MatchFrom(p: Pattern, patI: nat, pathI: nat, path: seq<string>)
    requires patI <= |p.segs| && pathI <= |path|
    decreases |p.segs| - patI, 0
  {
    if patI == |p.segs| then p.dirOnly || pathI == |path|
    else match p.segs[patI]
      case DblStar => MatchFromAny(p, patI + 1, pathI, path)
      case Lit(lit) => pathI < |path| && GlobMatch(lit, path[pathI]) && MatchFrom(p, patI + 1, pathI + 1, path)
  }

  /** The loop over how many path segments a `**` takes. */
  predicate MatchFromAny(p: Pattern, patI: nat, lo: nat, path: seq<string>)
    requires patI <= |p.segs| && lo <= |path|
    decreases |p.segs| - patI, 1
  {
    exists k :: lo <= k <= |path| && MatchFrom(p, patI, k, path)
  }

  predicate Matches(p: Pattern, path: seq<string>) {
    if p.segs == [] then false
    else if p.anchored then MatchFrom(p, 0, 0, path)
    else p.segs[0].DblStar? || exists i :: 0 <= i < |path| && GlobMatch(p.segs[0].lit, path[i])
  }

  predicate MatchPath(patterns: seq<Pattern>, path: string) {
    var bare := DropLeadingSlash(path);
    bare != "" && exists i :: 0 <= i < |patterns| && Matches(patterns[i], Split(bare, '/'))
  }

  /** A list of patterns matches a path iff some one of them alone does. */
  lemma ListMatchesByOne(patterns: seq<Pattern>, path: string)
    ensures MatchPath(patterns, path) <==> exists i :: 0 <= i < |patterns| && MatchPath([patterns[i]], path)
  {
    hide Matches, Split;
    forall i | 0 <= i < |patterns|
      ensures MatchPath([patterns[i]], path) <==>
        DropLeadingSlash(path) != "" && Matches(patterns[i], Split(DropLeadingSlash(path), '/'))
    {
      assert [patterns[i]][0] == patterns[i];
    }
  }

  lemma SurvivorAlone(p: string, path: string)
    ensures MatchPath(Survivors([p]), path) <==> Compiled(p).Some? && MatchPath([Compiled(p).value], path)
  {
    hide Matches, Compiled;
    assert [p][..0] == [] && Survivors([]) == [];
    assert Survivors([p]) == if Compiled(p).Some? then [Compiled(p).value] else [];
  }

  /** A path is matched by its segments, one slash in front or none. */
  lemma PathMatchesBySegments(p: Pattern, segs: seq<string>)
    requires segs != [] && segs[0] != "" && forall s :: s in segs ==> '/' !in s
    ensures MatchPath([p], Join(segs, '/')) <==> Matches(p, segs)
    ensures MatchPath([p], "/" + Join(segs, '/')) <==> Matches(p, segs)
  {
    hide Matches, Split, Join;
    SplitJoin(segs, '/');
    JoinFront(segs, '/');
    var path := Join(segs, '/');
    assert path[0] == segs[0][0] && segs[0][0] in segs[0] && segs[0] in segs;
    assert ("/" + path)[1..] == path && [p][0] == p;
  }

  // ------------------------------------------------------ what a match means

  /**
   * Consecutive blocks of the path, one per pattern segment: a literal takes one segment, `**`
   * any number. They cover the whole path or, for a directory pattern, a prefix of it.
   */
  ghost predicate IsBlocking(p: Pattern, path: seq<string>, cuts: seq<nat>) {
    && |cuts| == |p.segs| + 1 && cuts[0] == 0 && cuts[|p.segs|] <= |path|
    && (p.dirOnly || cuts[|p.segs|] == |path|)
    && (forall i, j :: 0 <= i <= j < |cuts| ==> cuts[i] <= cuts[j])
    && (forall i :: 0 <= i < |p.segs| && p.segs[i].Lit? ==>
          cuts[i + 1] == cuts[i] + 1 && GlobMatch(p.segs[i].lit, path[cuts[i]]))
  }

  lemma {:induction false} BlockingMatchesFrom(p: Pattern, path: seq<string>, cuts: seq<nat>, i: nat)
    requires IsBlocking(p, path, cuts) && i <= |p.segs|
    ensures cuts[i] <= |path| && MatchFrom(p, i, cuts[i], path)
    decreases |p.segs| - i
  {
    hide GlobMatch;
    assert cuts[i] <= cuts[|p.segs|];
    if i < |p.segs| {
      BlockingMatchesFrom(p, path, cuts, i + 1);
      assert cuts[i] <= cuts[i + 1];
    }
  }

  lemma {:induction false} MatchFromBlocks(p: Pattern, path: seq<string>, head: seq<nat>)
    requires 0 < |head| <= |p.segs| + 1 && head[0] == 0 && head[|head| - 1] <= |path|
    requires forall i, j :: 0 <= i <= j < |head| ==> head[i] <= head[j]
    requires forall i :: 0 <= i < |head| - 1 && p.segs[i].Lit? ==>
      head[i + 1] == head[i] + 1 && GlobMatch(p.segs[i].lit, path[head[i]])
    requires MatchFrom(p, |head| - 1, head[|head| - 1], path)
    ensures exists cuts :: IsBlocking(p, path, cuts)
    decreases |p.segs| + 1 - |head|
  {
    hide GlobMatch;
    var patI, pathI := |head| - 1, head[|head| - 1];
    if patI == |p.segs| {
      assert IsBlocking(p, path, head);
    } else {
      var k := pathI + 1;
      if p.segs[patI].DblStar? {
        k :| pathI <= k <= |path| && MatchFrom(p, patI + 1, k, path);
      }
      MatchFromBlocks(p, path, head + [k]);
    }
  }

  /** An anchored pattern matches iff the path splits into blocks. */
  lemma AnchoredMatchIsBlocking(p: Pattern, path: seq<string>)
    requires p.anchored && p.segs != []
    ensures Matches(p, path) <==> exists cuts :: IsBlocking(p, path, cuts)
  {
    if Matches(p, path) {
      MatchFromBlocks(p, path, [0]);
    }
    if cuts :| IsBlocking(p, path, cuts) {
      BlockingMatchesFrom(p, path, cuts, 0);
    }
  }

  /** The blocks again, with each literal segment read as the documentation reads it. */
  ghost predicate IsDocumentedBlocking(p: Pattern, path: seq<string>, cuts: seq<nat>) {
    && |cuts| == |p.segs| + 1 && cuts[0] == 0 && cuts[|p.segs|] <= |path|
    && (p.dirOnly || cuts[|p.segs|] == |path|)
    && (forall i, j :: 0 <= i <= j < |cuts| ==> cuts[i] <= cuts[j])
    && (forall i :: 0 <= i < |p.segs| && p.segs[i].Lit? ==>
          cuts[i + 1] == cuts[i] + 1 && Aligned(p.segs[i].lit, path[cuts[i]]))
  }

  /** For paths with no `[` before the end of a segment, an anchored match is exactly the documented one, glob tokens included. */
  lemma AnchoredMatchIsDocumented(p: Pattern, path: seq<string>)
    requires p.anchored && p.segs != []
    requires forall i :: 0 <= i < |path| ==> NoInnerBracket(path[i])
    ensures Matches(p, path) <==> exists cuts :: IsDocumentedBlocking(p, path, cuts)
  {
    hide GlobMatch, Aligned, Matches;
    AnchoredMatchIsBlocking(p, path);
    forall lit: string, i | 0 <= i < |path| ensures GlobMatch(lit, path[i]) <==> Aligned(lit, path[i]) {
      assert ClassesHold(Tokens(lit, 0), path[i]);
      GlobMatchIsAlignment(lit, path[i]);
    }
    if cuts :| IsBlocking(p, path, cuts) {
      BlockStarts(p, path, cuts);
      assert IsDocumentedBlocking(p, path, cuts);
    }
    if cuts :| IsDocumentedBlocking(p, path, cuts) {
      BlockStarts(p, path, cuts);
      assert IsBlocking(p, path, cuts);
    }
  }

  /** For such paths, an unanchored pattern matches at any depth, by its one segment. */
  lemma UnanchoredMatchIsDocumented(text: string, path: seq<string>)
    requires Compiled(text).Some? && !Compiled(text).value.anchored
    requires forall i :: 0 <= i < |path| ==> NoInnerBracket(path[i])
    ensures var p := Compiled(text).value;
      Matches(p, path) <==> p.segs[0].DblStar? || exists i :: 0 <= i < |path| && Aligned(p.segs[0].lit, path[i])
  {
    hide GlobMatch, Aligned;
    UnanchoredIsOneSegment(text);
    var p := Compiled(text).value;
    if p.segs[0].Lit? {
      forall i | 0 <= i < |path| ensures GlobMatch(p.segs[0].lit, path[i]) <==> Aligned(p.segs[0].lit, path[i]) {
        assert ClassesHold(Tokens(p.segs[0].lit, 0), path[i]);
        GlobMatchIsAlignment(p.segs[0].lit, path[i]);
      }
    }
  }

  lemma BlockStarts(p: Pattern, path: seq<string>, cuts: seq<nat>)
    requires |cuts| == |p.segs| + 1 && cuts[|p.segs|] <= |path|
    requires forall i, j :: 0 <= i <= j < |cuts| ==> cuts[i] <= cuts[j]
    requires forall i :: 0 <= i < |p.segs| && p.segs[i].Lit? ==> cuts[i + 1] == cuts[i] + 1
    ensures forall i :: 0 <= i < |p.segs| && p.segs[i].Lit? ==> cuts[i] < |path|
  {
    forall i | 0 <= i < |p.segs| && p.segs[i].Lit? ensures cuts[i] < |path| {
      assert cuts[i + 1] <= cuts[|p.segs|];
    }
  }

  // ------------------------------------------------------------ directory patterns

  lemma {:induction false} MatchFromExtends(p: Pattern, patI: nat, pathI: nat, path: seq<string>, more: seq<string>)
    requires p.dirOnly && patI <= |p.segs| && pathI <= |path| && MatchFrom(p, patI, pathI, path)
    ensures MatchFrom(p, patI, pathI, path + more)
    decreases |p.segs| - patI
  {
    hide GlobMatch;
    if patI < |p.segs| {
      if p.segs[patI].DblStar? {
        var k :| pathI <= k <= |path| && MatchFrom(p, patI + 1, k, path);
        MatchFromExtends(p, patI + 1, k, path, more);
      } else {
        MatchFromExtends(p, patI + 1, pathI + 1, path, more);
      }
    }
  }

  /** A directory pattern that matches a path matches everything under it. */
  lemma DirectoryCoversSubtree(p: Pattern, path: string, under: string)
    requires p.dirOnly && MatchPath([p], path)
    ensures MatchPath([p], path + "/" + under)
  {
    hide GlobMatch, Split, MatchFrom;
    var bare := DropLeadingSlash(path);
    assert DropLeadingSlash(path + "/" + under) == bare + "/" + under;
    SplitAround(bare, '/', under);
    var segs, more := Split(bare, '/'), Split(under, '/');
    assert [p][0] == p;
    assert Matches(p, segs);
    if p.anchored {
      MatchFromExtends(p, 0, 0, segs, more);
    } else if p.segs[0].Lit? {
      var i :| 0 <= i < |segs| && GlobMatch(p.segs[0].lit, segs[i]);
      assert (segs + more)[i] == segs[i];
    }
  }
}
