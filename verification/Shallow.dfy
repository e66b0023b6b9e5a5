/** Planning a `deepen` fetch: the depth cut and the shallow/unshallow lines. */
module Shallow {
  import opened Commits

  /** One line of `git rev-list --parents`. */
  datatype CommitParents = CommitParents(oid: OID, parents: seq<OID>)

  datatype ShallowLine = Shallow(oid: OID) | Unshallow(oid: OID) {
    function Text(): string {
      match this
      case Shallow(o) => "shallow " + o
      case Unshallow(o) => "unshallow " + o
    }
  }

  function AsSet<T>(s: seq<T>): set<T> {
    set x | x in s
  }

  function Graph(cps: seq<CommitParents>): ParentMap {
    if cps == [] then map[]
    else var last := |cps| - 1; Graph(cps[..last])[cps[last].oid := cps[last].parents]
  }

  /** rev-list prints a commit once. */
  ghost predicate DistinctCommits(cps: seq<CommitParents>) {
    forall i, j :: 0 <= i < j < |cps| ==> cps[i].oid != cps[j].oid
  }

  /** What `git rev-list --parents <wants>` prints: each commit reachable from the wants, once. */
  ghost predicate RevList(cps: seq<CommitParents>, wants: seq<OID>) {
    && DistinctCommits(cps)
    && forall c :: c in Graph(cps) <==> Reaches(Graph(cps), AsSet(wants), c)
  }

  lemma {:induction false} GraphEntries(cps: seq<CommitParents>)
    requires DistinctCommits(cps)
    ensures forall i :: 0 <= i < |cps| ==> cps[i].oid in Graph(cps) && Graph(cps)[cps[i].oid] == cps[i].parents
    ensures forall c :: c in Graph(cps) ==> exists i :: 0 <= i < |cps| && cps[i].oid == c
  {
    if cps != [] {
      GraphEntries(cps[..|cps| - 1]);
    }
  }

  // ---------------------------------------------------------------- depth cut

  /** The commits a `deepen depth` fetch cuts off. */
  ghost predicate IsDepthCut(g: ParentMap, wants: seq<OID>, depth: int, e: set<OID>) {
    forall c :: c in e <==> exists d: nat :: Distance(g, AsSet(wants), c, d) && d >= depth
  }

  /** The first-visit numbering is a queue in distance order over exactly the numbered commits. */
  ghost predicate Numbered(g: ParentMap, starts: set<OID>, queue: seq<OID>, gen: map<OID, nat>) {
    && Distinct(queue)
    && (forall o :: o in gen <==> o in queue)
    && (forall i, j :: 0 <= i <= j < |queue| ==> gen[queue[i]] <= gen[queue[j]])
    && (forall o :: o in gen ==> ReachesIn(g, starts, o, gen[o]))
  }

  /** Every parent of `c` is numbered at most one above `c`. */
  ghost predicate Settled(g: ParentMap, gen: map<OID, nat>, c: OID) {
    c in gen && forall p :: p in ParentsOf(g, c) ==> p in gen && gen[p] <= gen[c] + 1
  }

  lemma {:induction false} NumberingIsShortest(g: ParentMap, starts: set<OID>, gen: map<OID, nat>, c: OID, k: nat)
    requires forall w :: w in starts ==> w in gen && gen[w] == 0
    requires forall b :: b in gen ==> Settled(g, gen, b)
    requires ReachesIn(g, starts, c, k)
    ensures c in gen && gen[c] <= k
    decreases k
  {
    if k > 0 {
      var b :| ReachesIn(g, starts, b, k - 1) && c in ParentsOf(g, b);
      NumberingIsShortest(g, starts, gen, b, k - 1);
      assert Settled(g, gen, b);
    }
  }

  lemma NumberingIsDistance(g: ParentMap, starts: set<OID>, gen: map<OID, nat>)
    requires forall w :: w in starts ==> w in gen && gen[w] == 0
    requires forall b :: b in gen ==> Settled(g, gen, b)
    requires forall o :: o in gen ==> ReachesIn(g, starts, o, gen[o])
    ensures forall c, d: nat :: Distance(g, starts, c, d) <==> c in gen && gen[c] == d
  {
    forall c, k: nat | ReachesIn(g, starts, c, k) ensures c in gen && gen[c] <= k {
      NumberingIsShortest(g, starts, gen, c, k);
    }
  }

  lemma CutFromDistances(g: ParentMap, wants: seq<OID>, depth: int, gen: map<OID, nat>, e: set<OID>)
    requires forall c, d: nat :: Distance(g, AsSet(wants), c, d) <==> c in gen && gen[c] == d
    requires forall o :: o in e <==> o in gen && gen[o] >= depth
    ensures IsDepthCut(g, wants, depth, e)
  {
    hide Distance;
    forall c | c in e ensures exists d: nat :: Distance(g, AsSet(wants), c, d) && d >= depth {
      assert Distance(g, AsSet(wants), c, gen[c]);
    }
  }

  /** Every commit the walk can meet: the wants and all listed parents. */
  ghost function Universe(g: ParentMap, starts: set<OID>): set<OID> {
    starts + set c, p | c in g && p in g[c] :: p
  }

  lemma InUniverse(g: ParentMap, starts: set<OID>, c: OID, p: OID)
    requires p in ParentsOf(g, c)
    ensures p in Universe(g, starts)
  {
  }

  /** The state of the walk with `queue[..head]` already expanded. */
  ghost predicate Walking(g: ParentMap, starts: set<OID>, queue: seq<OID>, gen: map<OID, nat>, head: nat) {
    && head <= |queue|
    && Numbered(g, starts, queue, gen)
    && (forall w :: w in starts ==> w in gen && gen[w] == 0)
    && (forall o :: o in queue ==> o in Universe(g, starts))
    && (forall i :: 0 <= i < head ==> Settled(g, gen, queue[i]))
    && (head < |queue| ==> forall o :: o in gen ==> gen[o] <= gen[queue[head]] + 1)
  }

  /** Appending a newly met parent of the head, numbered one above it, keeps the walk's state. */
  lemma PushKeepsWalking(g: ParentMap, starts: set<OID>, queue: seq<OID>, gen: map<OID, nat>, head: nat, p: OID)
    requires Walking(g, starts, queue, gen, head) && head < |queue|
    requires p in ParentsOf(g, queue[head]) && p !in gen
    ensures Walking(g, starts, queue + [p], gen[p := gen[queue[head]] + 1], head)
  {
    hide ReachesIn, Universe;
    var n := gen[queue[head]] + 1;
    var gen' := gen[p := n];
    ReachesParent(g, starts, queue[head], p, gen[queue[head]]);
    InUniverse(g, starts, queue[head], p);
    forall i | 0 <= i < head ensures Settled(g, gen', queue[i]) {
      assert Settled(g, gen, queue[i]);
    }
    hide Numbered, Settled;
    NumberOne(g, starts, queue, gen, p, n);
    assert (queue + [p])[head] == queue[head];
  }

  lemma NumberOne(g: ParentMap, starts: set<OID>, queue: seq<OID>, gen: map<OID, nat>, p: OID, n: nat)
    requires Numbered(g, starts, queue, gen) && p !in gen && ReachesIn(g, starts, p, n)
    requires forall o :: o in gen ==> gen[o] <= n
    ensures Numbered(g, starts, queue + [p], gen[p := n])
  {
    hide ReachesIn;
  }

  lemma HeadIsNumbered(g: ParentMap, starts: set<OID>, queue: seq<OID>, gen: map<OID, nat>, head: nat)
    requires Walking(g, starts, queue, gen, head) && head < |queue|
    ensures queue[head] in gen
  {
    hide ReachesIn, Universe;
  }

  lemma AdvanceHead(g: ParentMap, starts: set<OID>, queue: seq<OID>, gen: map<OID, nat>, head: nat)
    requires Walking(g, starts, queue, gen, head) && head < |queue|
    requires forall p :: p in ParentsOf(g, queue[head]) ==> p in gen
    ensures Walking(g, starts, queue, gen, head + 1)
  {
    hide ReachesIn, Universe;
  }

  /** The inner loop: number the parents of the commit at the head of the queue. */
  method NumberParents(g: ParentMap, ghost starts: set<OID>, queue: seq<OID>, gen: map<OID, nat>, head: nat)
    returns (queue': seq<OID>, gen': map<OID, nat>)
    requires head < |queue| && Walking(g, starts, queue, gen, head)
    ensures Walking(g, starts, queue', gen', head + 1) && queue <= queue'
  {
    hide Walking;
    HeadIsNumbered(g, starts, queue, gen, head);
    var c := queue[head];
    queue', gen' := queue, gen;
    var parents := ParentsOf(g, c);
    for i := 0 to |parents|
      invariant queue <= queue' && c in gen' && Walking(g, starts, queue', gen', head)
      invariant forall j :: 0 <= j < i ==> parents[j] in gen'
    {
      if parents[i] !in gen' {
        PushKeepsWalking(g, starts, queue', gen', head, parents[i]);
        assert queue'[head] == c;
        queue', gen' := queue' + [parents[i]], gen'[parents[i] := gen'[c] + 1];
      }
    }
    AdvanceHead(g, starts, queue', gen', head);
  }

  /** The wants, each once, numbered zero. */
  method Seed(g: ParentMap, wants: seq<OID>) returns (queue: seq<OID>, gen: map<OID, nat>)
    ensures Walking(g, AsSet(wants), queue, gen, 0)
  {
    hide ReachesIn;
    ghost var starts := AsSet(wants);
    gen, queue := map[], [];
    for i := 0 to |wants|
      invariant Numbered(g, starts, queue, gen)
      invariant forall o :: o in gen ==> gen[o] == 0 && o in starts
      invariant forall j :: 0 <= j < i ==> wants[j] in gen
    {
      if wants[i] !in gen {
        ReachesStart(g, starts, wants[i]);
        gen := gen[wants[i] := 0];
        queue := queue + [wants[i]];
      }
    }
  }

  method DepthExcludedSet(wants: seq<OID>, g: ParentMap, depth: int) returns (e: set<OID>, ghost dist: map<OID, nat>)
    ensures forall c, d: nat :: Distance(g, AsSet(wants), c, d) <==> c in dist && dist[c] == d
    ensures IsDepthCut(g, wants, depth, e)
  {
    hide ReachesIn, Distance, IsDepthCut, Universe;
    ghost var starts := AsSet(wants);
    ghost var u := Universe(g, starts);
    var queue, gen := Seed(g, wants);
    var head := 0;
    DistinctBound(queue, u);
    while head < |queue|
      invariant Walking(g, starts, queue, gen, head) && |queue| <= |u|
      decreases |u| - head
    {
      queue, gen := NumberParents(g, starts, queue, gen, head);
      DistinctBound(queue, u);
      head := head + 1;
    }
    NumberingIsDistance(g, starts, gen);
    e := AtLeast(gen, depth);
    dist := gen;
    CutFromDistances(g, wants, depth, gen, e);
  }

  /** The final loop over the numbering, in whatever order the map is enumerated. */
  method AtLeast(gen: map<OID, nat>, depth: int) returns (e: set<OID>)
    ensures forall o :: o in e <==> o in gen && gen[o] >= depth
  {
    e := {};
    var rest := gen.Keys;
    while rest != {}
      invariant rest <= gen.Keys
      invariant forall o :: o in e <==> o in gen && o !in rest && gen[o] >= depth
    {
      var o :| o in rest;
      if gen[o] >= depth {
        e := e + {o};
      }
      rest := rest - {o};
    }
  }

  // ------------------------------------------------------- shallow boundaries

  /** Listed by rev-list and not cut off. */
  predicate Included(g: ParentMap, e: set<OID>, c: OID) {
    c in g && c !in e
  }

  predicate HasParentIn(g: ParentMap, e: set<OID>, c: OID) {
    exists p :: p in ParentsOf(g, c) && p in e
  }

  predicate Resolved(g: ParentMap, e: set<OID>, c: OID) {
    forall p :: p in ParentsOf(g, c) ==> Included(g, e, p)
  }

  /** `emitted` holds the OIDs of the lines, and no OID has two lines. */
  ghost predicate Emitted(lines: seq<ShallowLine>, emitted: set<OID>) {
    && (forall k :: 0 <= k < |lines| ==> lines[k].oid in emitted)
    && (forall o :: o in emitted ==> Shallow(o) in lines || Unshallow(o) in lines)
    && (forall i, j :: 0 <= i < j < |lines| ==> lines[i].oid != lines[j].oid)
  }

  /** The plan's lines, as the pack protocol needs them. */
  ghost predicate PlannedLines(g: ParentMap, e: set<OID>, client: set<OID>, lines: seq<ShallowLine>) {
    && (forall c :: Shallow(c) in lines <==> Included(g, e, c) && HasParentIn(g, e, c) && c !in client)
    && (forall c :: Unshallow(c) in lines <==> c in client && Included(g, e, c) && Resolved(g, e, c))
    && (forall i, j :: 0 <= i < j < |lines| ==> lines[i].oid != lines[j].oid)
    && (forall i, j :: 0 <= i < j < |lines| && lines[j].Shallow? ==> lines[i].Shallow?)
  }

  method AnyIn(parents: seq<OID>, e: set<OID>) returns (boundary: bool)
    ensures boundary <==> exists p :: p in parents && p in e
  {
    boundary := false;
    for j := 0 to |parents|
      invariant !boundary && forall k :: 0 <= k < j ==> parents[k] !in e
    {
      if parents[j] in e {
        return true;
      }
    }
  }

  method AllIncluded(g: ParentMap, e: set<OID>, parents: seq<OID>) returns (resolved: bool)
    ensures resolved <==> forall p :: p in parents ==> Included(g, e, p)
  {
    resolved := true;
    for j := 0 to |parents|
      invariant resolved && forall k :: 0 <= k < j ==> Included(g, e, parents[k])
    {
      if parents[j] in e || parents[j] !in g {
        assert !Included(g, e, parents[j]);
        return false;
      }
    }
  }

  lemma EmitLine(lines: seq<ShallowLine>, emitted: set<OID>, line: ShallowLine)
    requires Emitted(lines, emitted) && line.oid !in emitted
    ensures Emitted(lines + [line], emitted + {line.oid})
  {
    var lines' := lines + [line];
    assert lines'[|lines|] == line;
    assert forall l :: l in lines ==> l in lines';
  }

  ghost predicate Boundary(g: ParentMap, e: set<OID>, client: set<OID>, c: OID) {
    c !in e && HasParentIn(g, e, c) && c !in client
  }

  ghost predicate Listed(cps: seq<CommitParents>, i: nat, c: OID) {
    exists j :: 0 <= j < i && j < |cps| && cps[j].oid == c
  }

  lemma ListedNext(cps: seq<CommitParents>, i: nat)
    requires i < |cps|
    ensures forall c :: Listed(cps, i + 1, c) <==> Listed(cps, i, c) || c == cps[i].oid
    ensures DistinctCommits(cps) ==> !Listed(cps, i, cps[i].oid)
  {
    forall c
      ensures Listed(cps, i + 1, c) <==> Listed(cps, i, c) || c == cps[i].oid
    {
      if c == cps[i].oid {
        assert Listed(cps, i + 1, c);
      }
    }
  }

  lemma AllListed(cps: seq<CommitParents>)
    requires DistinctCommits(cps)
    ensures forall c :: !Listed(cps, 0, c)
    ensures forall c :: Listed(cps, |cps|, c) <==> c in Graph(cps)
  {
    GraphEntries(cps);
  }

  lemma ParentInCut(cps: seq<CommitParents>, e: set<OID>, i: nat)
    requires DistinctCommits(cps) && i < |cps|
    ensures HasParentIn(Graph(cps), e, cps[i].oid) <==> exists p :: p in cps[i].parents && p in e
  {
    GraphEntries(cps);
  }

  /** The `shallow` lines, in rev-list order. */
  method BoundaryLines(cps: seq<CommitParents>, e: set<OID>, client: set<OID>)
    returns (lines: seq<ShallowLine>, emitted: set<OID>)
    requires DistinctCommits(cps)
    ensures forall c :: Shallow(c) in lines <==>
      Included(Graph(cps), e, c) && HasParentIn(Graph(cps), e, c) && c !in client
    ensures forall k :: 0 <= k < |lines| ==> lines[k].Shallow?
    ensures Emitted(lines, emitted)
  {
    hide Graph, Listed, HasParentIn, DistinctCommits;
    ghost var g := Graph(cps);
    AllListed(cps);
    lines, emitted := [], {};
    for i := 0 to |cps|
      invariant forall c :: Shallow(c) in lines ==> Listed(cps, i, c) && Boundary(g, e, client, c)
      invariant forall c :: Listed(cps, i, c) && Boundary(g, e, client, c) ==> Shallow(c) in lines
      invariant forall k :: 0 <= k < |lines| ==> lines[k].Shallow?
      invariant Emitted(lines, emitted)
    {
      ListedNext(cps, i);
      ParentInCut(cps, e, i);
      var cp := cps[i];
      if cp.oid !in e {
        var boundary := AnyIn(cp.parents, e);
        if boundary && cp.oid !in client && cp.oid !in emitted {
          EmitLine(lines, emitted, Shallow(cp.oid));
          lines := lines + [Shallow(cp.oid)];
          emitted := emitted + {cp.oid};
        }
      }
    }
  }

  lemma ParentInCutIsUnresolved(g: ParentMap, e: set<OID>)
    ensures forall c :: HasParentIn(g, e, c) ==> !Resolved(g, e, c)
  {
  }

  lemma ResolvedIs(g: ParentMap, e: set<OID>, c: OID)
    ensures Resolved(g, e, c) <==> forall p :: p in ParentsOf(g, c) ==> Included(g, e, p)
  {
  }

  /** A commit with a line has it among the boundaries or is already unshallow. */
  lemma EmittedBefore(boundaries: seq<ShallowLine>, lines: seq<ShallowLine>, emitted: set<OID>, s: OID)
    requires Emitted(lines, emitted) && boundaries <= lines
    requires forall k :: |boundaries| <= k < |lines| ==> lines[k].Unshallow?
    ensures s in emitted ==> Shallow(s) in boundaries || Unshallow(s) in lines
  {
  }

  /** The `unshallow` lines, in the order the client listed its shallows. */
  method UnshallowLines(g: ParentMap, e: set<OID>, shallows: seq<OID>,
                        boundaries: seq<ShallowLine>, boundaryOIDs: set<OID>)
    returns (lines: seq<ShallowLine>)
    requires forall k :: 0 <= k < |boundaries| ==> boundaries[k].Shallow?
    requires Emitted(boundaries, boundaryOIDs)
    requires forall c :: Shallow(c) in boundaries ==> HasParentIn(g, e, c)
    ensures boundaries <= lines
    ensures forall k :: |boundaries| <= k < |lines| ==> lines[k].Unshallow?
    ensures forall c :: Unshallow(c) in lines <==> c in shallows && Included(g, e, c) && Resolved(g, e, c)
    ensures exists emitted :: Emitted(lines, emitted)
  {
    ParentInCutIsUnresolved(g, e);
    hide Resolved, HasParentIn;
    lines := boundaries;
    var emitted := boundaryOIDs;
    for i := 0 to |shallows|
      invariant boundaries <= lines
      invariant forall k :: |boundaries| <= k < |lines| ==> lines[k].Unshallow?
      invariant forall c :: Unshallow(c) in lines <==>
        c in shallows[..i] && Included(g, e, c) && Resolved(g, e, c)
      invariant Emitted(lines, emitted)
    {
      var s := shallows[i];
      assert shallows[..i + 1] == shallows[..i] + [s];
      EmittedBefore(boundaries, lines, emitted, s);
      if s in g && s !in e && s !in emitted {
        var resolved := AllIncluded(g, e, ParentsOf(g, s));
        assert resolved <==> Resolved(g, e, s) by {
          ResolvedIs(g, e, s);
        }
        if resolved {
          EmitLine(lines, emitted, Unshallow(s));
          lines := lines + [Unshallow(s)];
          emitted := emitted + {s};
        }
      }
    }
    assert shallows[..|shallows|] == shallows;
  }

  method PlanShallowFetch(cps: seq<CommitParents>, wants: seq<OID>, deepen: int,
                          notAncestors: set<OID>, shallows: seq<OID>)
    returns (lines: seq<ShallowLine>, e: set<OID>)
    requires DistinctCommits(cps)
    ensures deepen > 0 ==> IsDepthCut(Graph(cps), wants, deepen, e)
    ensures deepen <= 0 ==> e == notAncestors
    ensures PlannedLines(Graph(cps), e, AsSet(shallows), lines)
  {
    hide IsDepthCut, Distance;
    var parentOf: ParentMap := map[];
    for i := 0 to |cps|
      invariant parentOf == Graph(cps[..i])
    {
      parentOf := parentOf[cps[i].oid := cps[i].parents];
      assert cps[..i + 1][..i] == cps[..i];
    }
    assert cps[..|cps|] == cps;
    if deepen > 0 {
      ghost var dist;
      e, dist := DepthExcludedSet(wants, parentOf, deepen);
    } else {
      e := notAncestors;
    }
    var boundaries, emitted := BoundaryLines(cps, e, AsSet(shallows));
    lines := UnshallowLines(parentOf, e, shallows, boundaries, emitted);
  }
}
