/** The commit graph as `git rev-list --parents` prints it, and walks over it. */
module Commits {
  import opened Text

  /** An object id; the wire form is 40 hex digits, "" stands for "no object". */
  type OID = string

  /** What git prints and sends for "no object". */
  const ZERO_OID: OID := Repeat('0', 40)

  /** Parent lists by commit. A commit missing from the map has no known parents. */
  type ParentMap = map<OID, seq<OID>>

  /** A Go map read: a missing key yields the empty slice. */
  function ParentsOf(g: ParentMap, c: OID): seq<OID> {
    if c in g then g[c] else []
  }

  /** Some walk of exactly `k` parent edges leads from a member of `starts` to `c`. */
  ghost predicate ReachesIn(g: ParentMap, starts: set<OID>, c: OID, k: nat)
    decreases k
  {
    if k == 0 then c in starts
    else exists b :: ReachesIn(g, starts, b, k - 1) && c in ParentsOf(g, b)
  }

  ghost predicate Reaches(g: ParentMap, starts: set<OID>, c: OID) {
    exists k: nat :: ReachesIn(g, starts, c, k)
  }

  /** `d` is the least number of parent edges from any member of `starts` to `c`. */
  ghost predicate Distance(g: ParentMap, starts: set<OID>, c: OID, d: nat) {
    ReachesIn(g, starts, c, d) && forall j: nat :: j < d ==> !ReachesIn(g, starts, c, j)
  }

  /** `a` is an ancestor of (or equal to) `b`: what `merge-base --is-ancestor` decides. */
  ghost predicate Ancestor(g: ParentMap, a: OID, b: OID) {
    Reaches(g, {b}, a)
  }

  lemma ReachesParent(g: ParentMap, starts: set<OID>, b: OID, c: OID, k: nat)
    requires ReachesIn(g, starts, b, k) && c in ParentsOf(g, b)
    ensures ReachesIn(g, starts, c, k + 1)
  {
  }

  lemma ReachesStart(g: ParentMap, starts: set<OID>, c: OID)
    requires c in starts
    ensures ReachesIn(g, starts, c, 0)
  {
  }

  lemma DistanceUnique(g: ParentMap, starts: set<OID>, c: OID, d: nat, e: nat)
    requires Distance(g, starts, c, d) && Distance(g, starts, c, e)
    ensures d == e
  {
  }

  /** Every reachable commit has a distance, no larger than the length of any walk to it. */
  lemma {:induction false} DistanceExists(g: ParentMap, starts: set<OID>, c: OID, k: nat) returns (d: nat)
    requires ReachesIn(g, starts, c, k)
    ensures d <= k && Distance(g, starts, c, d)
    decreases k
  {
    if j: nat :| j < k && ReachesIn(g, starts, c, j) {
      d := DistanceExists(g, starts, c, j);
    } else {
      d := k;
    }
  }

  /** Distances grow by at most one along a parent edge. */
  lemma DistanceStep(g: ParentMap, starts: set<OID>, b: OID, c: OID, db: nat, dc: nat)
    requires Distance(g, starts, b, db) && Distance(g, starts, c, dc) && c in ParentsOf(g, b)
    ensures dc <= db + 1
  {
    assert ReachesIn(g, starts, c, db + 1);
  }

  /** The last edge of a shortest walk comes from a commit one step nearer. */
  lemma DistancePredecessor(g: ParentMap, starts: set<OID>, c: OID, d: nat) returns (b: OID)
    requires d > 0 && Distance(g, starts, c, d)
    ensures Distance(g, starts, b, d - 1) && c in ParentsOf(g, b)
  {
    b :| ReachesIn(g, starts, b, d - 1) && c in ParentsOf(g, b);
    if j: nat :| j < d - 1 && ReachesIn(g, starts, b, j) {
      assert ReachesIn(g, starts, c, j + 1);
      assert false;
    }
  }

  /** Walks compose: the tail of one starts where the other ends. */
  lemma {:induction false} WalksCompose(g: ParentMap, starts: set<OID>, b: OID, c: OID, j: nat, k: nat)
    requires ReachesIn(g, starts, b, j) && ReachesIn(g, {b}, c, k)
    ensures ReachesIn(g, starts, c, j + k)
    decreases k
  {
    if k > 0 {
      var m :| ReachesIn(g, {b}, m, k - 1) && c in ParentsOf(g, m);
      WalksCompose(g, starts, b, m, j, k - 1);
    }
  }

  lemma AncestorTransitive(g: ParentMap, a: OID, b: OID, c: OID)
    requires Ancestor(g, a, b) && Ancestor(g, b, c)
    ensures Ancestor(g, a, c)
  {
    var j: nat :| ReachesIn(g, {c}, b, j);
    var k: nat :| ReachesIn(g, {b}, a, k);
    WalksCompose(g, {c}, b, a, j, k);
  }

  lemma AncestorReflexive(g: ParentMap, a: OID)
    ensures Ancestor(g, a, a)
  {
    assert ReachesIn(g, {a}, a, 0);
  }

  ghost predicate Distinct<T>(s: seq<T>) {
    forall i, j :: 0 <= i < j < |s| ==> s[i] != s[j]
  }

  /** A repetition-free sequence over a finite set is no longer than the set. */
  lemma {:induction false} DistinctBound<T>(s: seq<T>, u: set<T>)
    requires Distinct(s) && forall x :: x in s ==> x in u
    ensures |s| <= |u|
  {
    if s != [] {
      var last := s[|s| - 1];
      forall x | x in s[..|s| - 1] ensures x in u - {last} {
        var i :| 0 <= i < |s| - 1 && s[i] == x;
      }
      DistinctBound(s[..|s| - 1], u - {last});
    }
  }
}
