/** What history the client has once it applies a shallow plan. */
module ShallowHistory {
  import opened Commits
  import opened Shallow

  /** gitprotocol-pack, "Packfile Negotiation": `shallow` adds a boundary, `unshallow` drops one. */
  ghost function ClientShallows(client: set<OID>, lines: seq<ShallowLine>): set<OID> {
    client + (set l | l in lines && l.Shallow? :: l.oid) - (set l | l in lines && l.Unshallow? :: l.oid)
  }

  /** The client's history walk: from the wants over parents, never past a shallow commit. */
  ghost predicate Visits(g: ParentMap, starts: set<OID>, cut: set<OID>, c: OID, k: nat)
    decreases k
  {
    if k == 0 then c in starts
    else exists b :: Visits(g, starts, cut, b, k - 1) && b !in cut && c in ParentsOf(g, b)
  }

  ghost predicate InHistory(g: ParentMap, starts: set<OID>, cut: set<OID>, c: OID) {
    exists k: nat :: Visits(g, starts, cut, c, k)
  }

  ghost predicate Nearer(g: ParentMap, starts: set<OID>, c: OID, depth: int) {
    exists d: nat :: d < depth && Distance(g, starts, c, d)
  }

  lemma VisitsParent(g: ParentMap, starts: set<OID>, cut: set<OID>, b: OID, c: OID, k: nat)
    requires Visits(g, starts, cut, b, k) && b !in cut && c in ParentsOf(g, b)
    ensures Visits(g, starts, cut, c, k + 1)
  {
  }

  lemma StartIsVisited(g: ParentMap, starts: set<OID>, cut: set<OID>, c: OID)
    requires Distance(g, starts, c, 0)
    ensures Visits(g, starts, cut, c, 0)
  {
  }

  /** What rev-list from the wants guarantees: the parents of a listed commit are listed. */
  ghost predicate ParentClosed(g: ParentMap) {
    forall c, p :: c in g && p in g[c] ==> p in g
  }

  /** For any cut set, an included commit is shallow for the client iff it has a parent in the cut. */
  lemma ShallowIffParentCut(g: ParentMap, e: set<OID>, client: set<OID>, lines: seq<ShallowLine>, c: OID)
    requires ParentClosed(g) && PlannedLines(g, e, client, lines)
    requires Included(g, e, c)
    ensures c in ClientShallows(client, lines) <==> HasParentIn(g, e, c)
  {
    assert Shallow(c) in lines <==> HasParentIn(g, e, c) && c !in client;
    assert Unshallow(c) in lines <==> c in client && Resolved(g, e, c);
    assert Resolved(g, e, c) <==> !HasParentIn(g, e, c);
  }

  lemma ReachableIsParentClosed(g: ParentMap, starts: set<OID>)
    requires forall x :: x in g <==> Reaches(g, starts, x)
    ensures ParentClosed(g)
  {
    hide ReachesIn;
    forall c, p | c in g && p in g[c] ensures p in g {
      var k: nat :| ReachesIn(g, starts, c, k);
      ReachesParent(g, starts, c, p, k);
      assert Reaches(g, starts, p);
    }
  }

  /** No commit is sent as both shallow and unshallow, and unshallow goes only to client shallows. */
  lemma LinesAreConsistent(g: ParentMap, e: set<OID>, client: set<OID>, lines: seq<ShallowLine>, i: nat, j: nat)
    requires PlannedLines(g, e, client, lines) && i < |lines| && j < |lines|
    ensures lines[i].oid == lines[j].oid ==> i == j
    ensures lines[i].Unshallow? ==> lines[i].oid in client
    ensures lines[i].Shallow? ==> lines[i].oid !in client
  {
    assert lines[i] in lines;
    if lines[i].Unshallow? {
      assert lines[i] == Unshallow(lines[i].oid);
    } else {
      assert lines[i] == Shallow(lines[i].oid);
    }
  }

  /** A `deepen N` plan for the given rev-list. */
  ghost predicate DepthPlan(g: ParentMap, wants: seq<OID>, depth: int, e: set<OID>, client: set<OID>, lines: seq<ShallowLine>) {
    && depth > 0
    && ParentClosed(g)
    && (forall c :: c in g <==> Reaches(g, AsSet(wants), c))
    && IsDepthCut(g, wants, depth, e)
    && PlannedLines(g, e, client, lines)
  }

  lemma DistanceOf(g: ParentMap, starts: set<OID>, c: OID) returns (d: nat)
    requires Reaches(g, starts, c)
    ensures Distance(g, starts, c, d)
  {
    var k: nat :| ReachesIn(g, starts, c, k);
    d := DistanceExists(g, starts, c, k);
  }

  lemma CutByDistance(g: ParentMap, wants: seq<OID>, depth: int, e: set<OID>, c: OID, d: nat)
    requires IsDepthCut(g, wants, depth, e) && Distance(g, AsSet(wants), c, d)
    ensures c in e <==> d >= depth
  {
    hide ReachesIn;
    if c in e {
      var d': nat :| Distance(g, AsSet(wants), c, d') && d' >= depth;
      DistanceUnique(g, AsSet(wants), c, d, d');
    }
  }

  /** Every boundary of a depth plan sits at distance exactly N-1. */
  lemma BoundaryDistance(g: ParentMap, wants: seq<OID>, depth: int, e: set<OID>, client: set<OID>, lines: seq<ShallowLine>, c: OID)
    requires DepthPlan(g, wants, depth, e, client, lines)
    requires Shallow(c) in lines || (Included(g, e, c) && HasParentIn(g, e, c))
    ensures Distance(g, AsSet(wants), c, depth - 1)
  {
    hide ReachesIn, Distance, IsDepthCut;
    var starts := AsSet(wants);
    var d := DistanceOf(g, starts, c);
    var p :| p in ParentsOf(g, c) && p in e;
    var dp := CutDistance(g, wants, depth, e, p);
    DistanceStep(g, starts, c, p, d, dp);
    CutByDistance(g, wants, depth, e, c, d);
  }

  lemma CutDistance(g: ParentMap, wants: seq<OID>, depth: int, e: set<OID>, c: OID) returns (d: nat)
    requires IsDepthCut(g, wants, depth, e) && c in e
    ensures Distance(g, AsSet(wants), c, d) && d >= depth
  {
    hide Distance;
    d :| Distance(g, AsSet(wants), c, d) && d >= depth;
  }

  /** The walk never leaves the commits nearer than N. */
  lemma {:induction false} VisitedIsNear(g: ParentMap, wants: seq<OID>, depth: int, e: set<OID>, client: set<OID>,
                                        lines: seq<ShallowLine>, c: OID, k: nat)
    requires DepthPlan(g, wants, depth, e, client, lines)
    requires Visits(g, AsSet(wants), ClientShallows(client, lines), c, k)
    ensures Reaches(g, AsSet(wants), c) && c !in e
    decreases k
  {
    hide ReachesIn, Distance, ClientShallows, PlannedLines, IsDepthCut;
    var starts := AsSet(wants);
    if k == 0 {
      ReachesStart(g, starts, c);
      StartsAreNear(g, starts, c);
      CutByDistance(g, wants, depth, e, c, 0);
    } else {
      var cut := ClientShallows(client, lines);
      var b :| Visits(g, starts, cut, b, k - 1) && b !in cut && c in ParentsOf(g, b);
      VisitedIsNear(g, wants, depth, e, client, lines, b, k - 1);
      ShallowIffParentCut(g, e, client, lines, b);
      var j: nat :| ReachesIn(g, starts, b, j);
      ReachesParent(g, starts, b, c, j);
    }
  }

  lemma StartsAreNear(g: ParentMap, starts: set<OID>, c: OID)
    requires c in starts
    ensures Distance(g, starts, c, 0)
  {
  }

  /** Every commit nearer than N is visited, along any of its shortest walks. */
  lemma {:induction false} NearIsVisited(g: ParentMap, wants: seq<OID>, depth: int, e: set<OID>, client: set<OID>,
                                        lines: seq<ShallowLine>, c: OID, d: nat)
    requires DepthPlan(g, wants, depth, e, client, lines)
    requires Distance(g, AsSet(wants), c, d) && d < depth
    ensures Visits(g, AsSet(wants), ClientShallows(client, lines), c, d)
    decreases d
  {
    hide ReachesIn, Distance, ClientShallows, PlannedLines, IsDepthCut, Visits;
    var starts := AsSet(wants);
    if d == 0 {
      StartIsVisited(g, starts, ClientShallows(client, lines), c);
    } else {
      var b := DistancePredecessor(g, starts, c, d);
      NearIsVisited(g, wants, depth, e, client, lines, b, d - 1);
      CutByDistance(g, wants, depth, e, b, d - 1);
      DistanceReaches(g, starts, b, d - 1);
      if b in ClientShallows(client, lines) {
        ShallowIffParentCut(g, e, client, lines, b);
        BoundaryDistance(g, wants, depth, e, client, lines, b);
        DistanceUnique(g, starts, b, d - 1, depth - 1);
        assert false;
      }
      VisitsParent(g, starts, ClientShallows(client, lines), b, c, d - 1);
    }
  }

  lemma DistanceReaches(g: ParentMap, starts: set<OID>, c: OID, d: nat)
    requires Distance(g, starts, c, d)
    ensures Reaches(g, starts, c)
  {
  }

  /**
   * After a `deepen N` fetch the client's history is exactly the commits fewer than N parent
   * edges away from a want.
   */
  lemma DepthHistory(g: ParentMap, wants: seq<OID>, depth: int, e: set<OID>, client: set<OID>, lines: seq<ShallowLine>, c: OID)
    requires DepthPlan(g, wants, depth, e, client, lines)
    ensures InHistory(g, AsSet(wants), ClientShallows(client, lines), c) <==> Nearer(g, AsSet(wants), c, depth)
  {
    hide ReachesIn, Distance, Visits, DepthPlan, ClientShallows;
    var starts := AsSet(wants);
    var cut := ClientShallows(client, lines);
    if k: nat :| Visits(g, starts, cut, c, k) {
      VisitedIsNear(g, wants, depth, e, client, lines, c, k);
      var d := DistanceOf(g, starts, c);
      DepthPlanCut(g, wants, depth, e, client, lines);
      CutByDistance(g, wants, depth, e, c, d);
    }
    if d: nat :| d < depth && Distance(g, starts, c, d) {
      NearIsVisited(g, wants, depth, e, client, lines, c, d);
    }
  }

  lemma DepthPlanCut(g: ParentMap, wants: seq<OID>, depth: int, e: set<OID>, client: set<OID>, lines: seq<ShallowLine>)
    requires DepthPlan(g, wants, depth, e, client, lines)
    ensures IsDepthCut(g, wants, depth, e)
  {
  }

  /** The planner and the history theorem together: one call's lines give the client depth-N history. */
  method PlanDepthFetch(cps: seq<CommitParents>, wants: seq<OID>, depth: int, shallows: seq<OID>)
    returns (lines: seq<ShallowLine>)
    requires RevList(cps, wants) && depth > 0
    ensures forall c ::
      InHistory(Graph(cps), AsSet(wants), ClientShallows(AsSet(shallows), lines), c) <==>
      Nearer(Graph(cps), AsSet(wants), c, depth)
  {
    var e;
    ReachableIsParentClosed(Graph(cps), AsSet(wants));
    lines, e := PlanShallowFetch(cps, wants, depth, {}, shallows);
    forall c
      ensures InHistory(Graph(cps), AsSet(wants), ClientShallows(AsSet(shallows), lines), c) <==>
              Nearer(Graph(cps), AsSet(wants), c, depth)
    {
      DepthHistory(Graph(cps), wants, depth, e, AsSet(shallows), lines, c);
    }
  }
}
