/** Read protection: the blob-to-paths index, and which objects a protected fetch packs. */
module ReadProtection {
  import opened Options
  import opened Commits
  import opened Text
  import PathMatch

  // ----------------------------------------------------------- the path index


  /** An `ls-tree -r` line: object id, space, path. */
  datatype Entry = Entry(oid: OID, path: string)

  function ParseEntry(line: string): Option<Entry> {
    var i := IndexOf(line, ' ');
    if i == |line| then None else Some(Entry(line[..i], line[i + 1..]))
  }

  function Entries(lines: seq<string>): seq<Entry> {
    if lines == [] then []
    else
      var n := |lines| - 1;
      Entries(lines[..n]) + (if ParseEntry(lines[n]).Some? then [ParseEntry(lines[n]).value] else [])
  }

  lemma {:induction false} EntriesMembers(lines: seq<string>)
    ensures forall e :: e in Entries(lines) <==> exists line :: line in lines && ParseEntry(line) == Some(e)
  {
    hide ParseEntry;
    if lines != [] {
      var n := |lines| - 1;
      EntriesMembers(lines[..n]);
      assert lines == lines[..n] + [lines[n]];
    }
  }

  /** The leaves of a root tree. */
  type Tree = map<string, OID>

  /** How git prints one leaf. */
  function LeafLine(oid: OID, path: string): string {
    oid + " " + path
  }

  /** Reading a printed leaf gives its object and its path back, spaces in the path kept. */
  lemma LeafLineParses(oid: OID, path: string)
    requires ' ' !in oid
    ensures ParseEntry(LeafLine(oid, path)) == Some(Entry(oid, path))
  {
    IndexAfter(oid, ' ', path);
    hide IndexOf;
    var line := oid + [' '] + path;
    assert LeafLine(oid, path) == line && line[..|oid|] == oid && line[|oid| + 1..] == path;
  }

  /** A line without a space stands for no leaf. */
  lemma MalformedLeafIsSkipped(lines: seq<string>, line: string)
    requires ' ' !in line
    ensures Entries(lines + [line]) == Entries(lines)
  {
    assert (lines + [line])[..|lines|] == lines;
  }

  /**
   * The repository and what git answers about it: the root tree of every commit a ref reaches, unless
   * listing them fails, what each tree holds, and the lines printed for each tree that can be listed.
   */
  datatype Mirror = Mirror(rootTrees: Option<seq<string>>, trees: map<string, Tree>, leaves: map<string, seq<string>>) {
    /** git prints one line for each leaf of a tree, and no other. */
    ghost predicate Prints() {
      forall t :: t in leaves ==> t in trees && PrintsTree(leaves[t], trees[t])
    }
  }

  ghost predicate PrintsTree(lines: seq<string>, tree: Tree) {
    && (forall path :: path in tree ==> ' ' !in tree[path])
    && (forall line :: line in lines <==> exists path :: path in tree && line == LeafLine(tree[path], path))
  }

  lemma PrintedTree(lines: seq<string>, tree: Tree)
    requires PrintsTree(lines, tree)
    ensures forall e :: e in Entries(lines) <==> e.path in tree && tree[e.path] == e.oid
  {
    hide ParseEntry, Entries, LeafLine;
    EntriesMembers(lines);
    forall path | path in tree ensures ParseEntry(LeafLine(tree[path], path)) == Some(Entry(tree[path], path)) {
      LeafLineParses(tree[path], path);
    }
    forall e ensures e in Entries(lines) <==> e.path in tree && tree[e.path] == e.oid {
      if e.path in tree && tree[e.path] == e.oid {
        assert LeafLine(tree[e.path], e.path) in lines;
      }
    }
  }

  /** The object sits at the path in some root tree reachable from a ref. */
  ghost predicate SitsAt(m: Mirror, oid: OID, path: string) {
    m.rootTrees.Some? && exists t :: t in m.rootTrees.value && LeafOf(m, t, oid, path)
  }

  predicate LeafOf(m: Mirror, t: string, oid: OID, path: string) {
    t != "" && t in m.trees && path in m.trees[t] && m.trees[t][path] == oid
  }

  /** `dedupStrings`: first-seen order, empty strings skipped. */
  function Dedup(ss: seq<string>): seq<string> {
    if ss == [] then []
    else
      var n := |ss| - 1;
      var d := Dedup(ss[..n]);
      if ss[n] == "" || ss[n] in d then d else d + [ss[n]]
  }

  method DedupStrings(ss: seq<string>) returns (out: seq<string>)
    ensures out == Dedup(ss)
  {
    out := [];
    var seen: set<string> := {};
    for i := 0 to |ss|
      invariant out == Dedup(ss[..i]) && forall s :: s in seen <==> s in out
    {
      assert ss[..i + 1][..i] == ss[..i];
      if ss[i] == "" || ss[i] in seen {
        continue;
      }
      seen := seen + {ss[i]};
      out := out + [ss[i]];
    }
    assert ss[..|ss|] == ss;
  }

  lemma {:induction false} DedupFacts(ss: seq<string>)
    ensures Distinct(Dedup(ss))
    ensures forall s :: s in Dedup(ss) <==> s in ss && s != ""
  {
    if ss != [] {
      var n := |ss| - 1;
      DedupFacts(ss[..n]);
      assert ss == ss[..n] + [ss[n]];
    }
  }

  type Index = map<OID, seq<string>>

  /** A Go map read. */
  function PathsOf(idx: Index, oid: OID): seq<string> {
    if oid in idx then idx[oid] else []
  }

  function AddPath(idx: Index, e: Entry): Index {
    if e.path in PathsOf(idx, e.oid) then idx else idx[e.oid := PathsOf(idx, e.oid) + [e.path]]
  }

  function AddAll(idx: Index, es: seq<Entry>): Index {
    if es == [] then idx
    else
      var n := |es| - 1;
      AddPath(AddAll(idx, es[..n]), es[n])
  }

  /** The entries of the given trees, in order; none when git cannot list one of them. */
  function TreeEntries(trees: seq<string>, leaves: map<string, seq<string>>): Option<seq<Entry>> {
    if trees == [] then Some([])
    else
      var n := |trees| - 1;
      match TreeEntries(trees[..n], leaves)
      case None => None
      case Some(es) => if trees[n] in leaves then Some(es + Entries(leaves[trees[n]])) else None
  }

  function BuildIndex(m: Mirror): Option<Index> {
    if m.rootTrees.None? then None
    else
      match TreeEntries(Dedup(m.rootTrees.value), m.leaves)
      case None => None
      case Some(es) => Some(AddAll(map[], es))
  }

  lemma {:induction false} AddAllAppends(idx: Index, a: seq<Entry>, b: seq<Entry>)
    ensures AddAll(idx, a + b) == AddAll(AddAll(idx, a), b)
  {
    if b == [] {
      assert a + b == a;
    } else {
      var n := |b| - 1;
      assert (a + b)[..|a + b| - 1] == a + b[..n];
      AddAllAppends(idx, a, b[..n]);
    }
  }

  method IndexEntry(e: Entry, idx0: Index, seen0: map<OID, set<string>>)
    returns (idx: Index, seen: map<OID, set<string>>)
    requires Mirrors(seen0, idx0)
    ensures idx == AddPath(idx0, e) && Mirrors(seen, idx)
  {
    idx, seen := idx0, seen0;
    var perOID := if e.oid in seen then seen[e.oid] else {};
    if e.path !in perOID {
      seen := seen[e.oid := perOID + {e.path}];
      idx := idx[e.oid := PathsOf(idx, e.oid) + [e.path]];
    }
  }

  /** The walk of one root tree: every leaf line goes into the index once. */
  method IndexTree(lines: seq<string>, idx0: Index, seen0: map<OID, set<string>>)
    returns (idx: Index, seen: map<OID, set<string>>)
    requires Mirrors(seen0, idx0)
    ensures idx == AddAll(idx0, Entries(lines)) && Mirrors(seen, idx)
  {
    hide Mirrors, AddPath, ParseEntry;
    idx, seen := idx0, seen0;
    for i := 0 to |lines|
      invariant idx == AddAll(idx0, Entries(lines[..i])) && Mirrors(seen, idx)
    {
      assert lines[..i + 1][..i] == lines[..i];
      var e := ParseEntry(lines[i]);
      if e.None? {
        assert Entries(lines[..i + 1]) == Entries(lines[..i]);
        continue;
      }
      AppendEntry(idx0, Entries(lines[..i]), e.value);
      idx, seen := IndexEntry(e.value, idx, seen);
    }
    assert lines[..|lines|] == lines;
  }

  lemma AppendEntry(idx: Index, es: seq<Entry>, e: Entry)
    ensures AddAll(idx, es + [e]) == AddPath(AddAll(idx, es), e)
  {
    assert (es + [e])[..|es|] == es;
  }

  /** The inner maps hold exactly the indexed paths. */
  ghost predicate Mirrors(seen: map<OID, set<string>>, idx: Index) {
    && seen.Keys == idx.Keys
    && forall o, p :: o in seen ==> (p in seen[o] <==> p in idx[o])
  }

  method BuildBlobPathIndex(m: Mirror) returns (r: Option<Index>)
    ensures r == BuildIndex(m)
  {
    if m.rootTrees.None? {
      return None;
    }
    var trees := DedupStrings(m.rootTrees.value);
    var idx: Index := map[];
    var seen: map<OID, set<string>> := map[];
    for i := 0 to |trees|
      invariant Mirrors(seen, idx)
      invariant TreeEntries(trees[..i], m.leaves).Some? && idx == AddAll(map[], TreeEntries(trees[..i], m.leaves).value)
    {
      assert trees[..i + 1][..i] == trees[..i];
      if trees[i] !in m.leaves {
        UnlistedStays(trees, m.leaves, i + 1);
        return None;
      }
      AddAllAppends(map[], TreeEntries(trees[..i], m.leaves).value, Entries(m.leaves[trees[i]]));
      idx, seen := IndexTree(m.leaves[trees[i]], idx, seen);
    }
    assert trees[..|trees|] == trees;
    r := Some(idx);
  }

  lemma {:induction false} UnlistedStays(trees: seq<string>, leaves: map<string, seq<string>>, i: nat)
    requires i <= |trees| && TreeEntries(trees[..i], leaves).None?
    ensures TreeEntries(trees, leaves).None?
    decreases |trees|
  {
    if i < |trees| {
      assert trees[..|trees| - 1][..i] == trees[..i];
      UnlistedStays(trees[..|trees| - 1], leaves, i);
    } else {
      assert trees[..i] == trees;
    }
  }

  lemma {:induction false} AddAllFacts(es: seq<Entry>, oid: OID)
    ensures Distinct(PathsOf(AddAll(map[], es), oid))
    ensures forall p :: p in PathsOf(AddAll(map[], es), oid) <==> Entry(oid, p) in es
  {
    if es != [] {
      var n := |es| - 1;
      AddAllFacts(es[..n], oid);
      assert es == es[..n] + [es[n]];
    }
  }

  lemma {:induction false} TreeEntriesFacts(trees: seq<string>, leaves: map<string, seq<string>>)
    requires TreeEntries(trees, leaves).Some?
    ensures forall t :: t in trees ==> t in leaves
    ensures forall e :: e in TreeEntries(trees, leaves).value <==> exists t :: t in trees && t in leaves && e in Entries(leaves[t])
  {
    if trees != [] {
      var n := |trees| - 1;
      TreeEntriesFacts(trees[..n], leaves);
      assert trees == trees[..n] + [trees[n]];
    }
  }

  /** The index holds each object's full path set over all of history, without repeats. */
  lemma IndexIsComplete(m: Mirror, oid: OID)
    requires m.Prints() && BuildIndex(m).Some?
    ensures var paths := PathsOf(BuildIndex(m).value, oid);
      Distinct(paths) && forall p :: p in paths <==> SitsAt(m, oid, p)
  {
    hide Entries, AddAll, TreeEntries, Dedup, PrintsTree;
    var trees := Dedup(m.rootTrees.value);
    var es := TreeEntries(trees, m.leaves).value;
    DedupFacts(m.rootTrees.value);
    TreeEntriesFacts(trees, m.leaves);
    AddAllFacts(es, oid);
    forall t | t in trees ensures t in m.leaves && forall p :: Entry(oid, p) in Entries(m.leaves[t]) <==> LeafOf(m, t, oid, p) {
      PrintedTree(m.leaves[t], m.trees[t]);
    }
  }

  /** One object's paths. */
  method Resolve(m: Mirror, oid: OID) returns (paths: Option<seq<string>>)
    ensures oid != "" ==> (paths.Some? <==> BuildIndex(m).Some?)
    ensures oid != "" && paths.Some? ==> paths.value == PathsOf(BuildIndex(m).value, oid)
    ensures oid == "" ==> paths == Some([])
  {
    if oid == "" {
      return Some([]);
    }
    var idx := BuildBlobPathIndex(m);
    paths := if idx.None? then None else Some(PathsOf(idx.value, oid));
  }

  /** The bulk form walks the trees once and answers what Resolve would answer for each object. */
  method ResolveMany(m: Mirror, oids: seq<OID>) returns (out: Option<Index>)
    ensures oids == [] ==> out == Some(map[])
    ensures oids != [] ==> (out.Some? <==> BuildIndex(m).Some?)
    ensures out.Some? ==> forall o :: o in out.value <==> o in oids && o != ""
    ensures out.Some? && oids != [] ==> forall o :: o in out.value ==> out.value[o] == PathsOf(BuildIndex(m).value, o)
  {
    if oids == [] {
      return Some(map[]);
    }
    var idx := BuildBlobPathIndex(m);
    if idx.None? {
      return None;
    }
    var res: Index := map[];
    for i := 0 to |oids|
      invariant forall o :: o in res <==> o in oids[..i] && o != ""
      invariant forall o :: o in res ==> res[o] == PathsOf(idx.value, o)
    {
      if oids[i] == "" {
        continue;
      }
      res := res[oids[i] := PathsOf(idx.value, oids[i])];
    }
    assert oids[..|oids|] == oids;
    out := Some(res);
  }

  // -------------------------------------------------------------- withholding

  type Matcher = seq<PathMatch.Pattern>
  type Types = map<OID, string>

  function TypeOf(types: Types, oid: OID): string {
    if oid in types then types[oid] else ""
  }

  predicate AnyDenied(deny: Matcher, paths: seq<string>) {
    exists i :: 0 <= i < |paths| && PathMatch.MatchPath(deny, paths[i])
  }

  /** A blob with at least one denied path in any root tree reachable from a ref. */
  ghost predicate Denied(m: Mirror, types: Types, deny: Matcher, oid: OID) {
    TypeOf(types, oid) == "blob" && exists p :: SitsAt(m, oid, p) && PathMatch.MatchPath(deny, p)
  }

  /** The wanted objects in first-seen order, without repeats. */
  function FirstSeen(oids: seq<OID>): seq<OID> {
    if oids == [] then []
    else
      var n := |oids| - 1;
      var d := FirstSeen(oids[..n]);
      if oids[n] in d then d else d + [oids[n]]
  }

  lemma {:induction false} FirstSeenFacts(oids: seq<OID>)
    ensures Distinct(FirstSeen(oids)) && forall o :: o in FirstSeen(oids) <==> o in oids
  {
    if oids != [] {
      var n := |oids| - 1;
      FirstSeenFacts(oids[..n]);
      assert oids == oids[..n] + [oids[n]];
    }
  }

  /** `a` occurs in the list at a point where `b` has not occurred yet. */
  ghost predicate Before(l: seq<OID>, a: OID, b: OID) {
    exists p :: 0 <= p < |l| && l[p] == a && b !in l[..p + 1]
  }

  lemma {:induction false} BeforeExtends(l: seq<OID>, x: OID, a: OID, b: OID)
    requires Before(l, a, b)
    ensures Before(l + [x], a, b)
  {
    var p :| 0 <= p < |l| && l[p] == a && b !in l[..p + 1];
    assert (l + [x])[p] == a && (l + [x])[..p + 1] == l[..p + 1];
  }

  lemma BeforeNew(l: seq<OID>, a: OID, b: OID)
    requires a in l && b !in l
    ensures Before(l + [b], a, b)
  {
    var p :| 0 <= p < |l| && l[p] == a;
    assert (l + [b])[p] == a && (l + [b])[..p + 1] == l[..p + 1];
    assert forall x :: x in l[..p + 1] ==> x in l;
  }

  /** One more wanted object adds itself at the end of what is packed, or nothing. */
  lemma NextPacked(m: Mirror, types: Types, deny: Matcher, objs: seq<OID>, o: OID)
    ensures var before, after := Undenied(m, types, deny, FirstSeen(objs)), Undenied(m, types, deny, FirstSeen(objs + [o]));
      (after == before || (after == before + [o] && o !in objs)) && forall x :: x in before ==> x in objs
  {
    hide Denied;
    var seen := FirstSeen(objs);
    FirstSeenFacts(objs);
    UndeniedMembers(m, types, deny, seen);
    assert (objs + [o])[..|objs|] == objs && (seen + [o])[..|seen|] == seen;
  }

  /** What is packed is in the order in which the objects were first wanted. */
  lemma {:induction false} PackedInFirstSeenOrder(m: Mirror, types: Types, deny: Matcher, objs: seq<OID>)
    ensures var kept := Undenied(m, types, deny, FirstSeen(objs));
      forall i, j :: 0 <= i < j < |kept| ==> Before(objs, kept[i], kept[j])
    decreases |objs|
  {
    hide Before, Undenied, FirstSeen;
    if objs == [] {
      assert Undenied(m, types, deny, FirstSeen([])) == [] by { NothingPacked(m, types, deny); }
    } else {
      var n := |objs| - 1;
      var early, o := objs[..n], objs[n];
      assert objs == early + [o];
      PackedInFirstSeenOrder(m, types, deny, early);
      NextPacked(m, types, deny, early, o);
      var before, kept := Undenied(m, types, deny, FirstSeen(early)), Undenied(m, types, deny, FirstSeen(objs));
      forall i, j | 0 <= i < j < |kept| ensures Before(objs, kept[i], kept[j]) {
        assert kept[i] == before[i] && before[i] in before;
        if j < |before| {
          BeforeExtends(early, o, kept[i], kept[j]);
        } else {
          BeforeNew(early, kept[i], o);
        }
      }
    }
  }

  lemma NothingPacked(m: Mirror, types: Types, deny: Matcher)
    ensures Undenied(m, types, deny, FirstSeen([])) == []
  {
  }

  method CollectOIDs(objs: seq<OID>) returns (order: seq<OID>)
    ensures order == FirstSeen(objs)
  {
    order := [];
    var seen: set<OID> := {};
    for i := 0 to |objs|
      invariant order == FirstSeen(objs[..i]) && forall o :: o in seen <==> o in order
    {
      assert objs[..i + 1][..i] == objs[..i];
      if objs[i] in seen {
        continue;
      }
      seen := seen + {objs[i]};
      order := order + [objs[i]];
    }
    assert objs[..|objs|] == objs;
  }

  /** What is left of the order once the denied blobs are dropped. */
  ghost function Undenied(m: Mirror, types: Types, deny: Matcher, order: seq<OID>): seq<OID> {
    if order == [] then []
    else
      var n := |order| - 1;
      Undenied(m, types, deny, order[..n]) + (if Denied(m, types, deny, order[n]) then [] else [order[n]])
  }

  lemma {:induction false} UndeniedMembers(m: Mirror, types: Types, deny: Matcher, order: seq<OID>)
    ensures forall o :: o in Undenied(m, types, deny, order) <==> o in order && !Denied(m, types, deny, o)
    ensures Distinct(order) ==> Distinct(Undenied(m, types, deny, order))
  {
    hide Denied;
    if order != [] {
      var n := |order| - 1;
      UndeniedMembers(m, types, deny, order[..n]);
      assert order == order[..n] + [order[n]];
    }
  }

  method FirstDenied(deny: Matcher, paths: seq<string>) returns (denied: bool)
    ensures denied <==> AnyDenied(deny, paths)
  {
    hide PathMatch.MatchPath;
    for i := 0 to |paths|
      invariant forall j :: 0 <= j < i ==> !PathMatch.MatchPath(deny, paths[j])
    {
      if PathMatch.MatchPath(deny, paths[i]) {
        return true;
      }
    }
    return false;
  }

  lemma DeniedByIndex(m: Mirror, types: Types, deny: Matcher, oid: OID, paths: seq<string>)
    requires m.Prints() && BuildIndex(m).Some? && paths == PathsOf(BuildIndex(m).value, oid)
    ensures TypeOf(types, oid) == "blob" ==> (Denied(m, types, deny, oid) <==> AnyDenied(deny, paths))
  {
    hide BuildIndex, SitsAt, PathMatch.MatchPath, PathsOf;
    IndexIsComplete(m, oid);
    if p :| SitsAt(m, oid, p) && PathMatch.MatchPath(deny, p) {
      assert p in paths;
      var i :| 0 <= i < |paths| && paths[i] == p;
    }
    if i :| 0 <= i < |paths| && PathMatch.MatchPath(deny, paths[i]) {
      assert paths[i] in paths;
    }
  }

  /** The blob object ids among the wanted ones. */
  method Blobs(types: Types, order: seq<OID>) returns (blobs: seq<OID>)
    ensures forall o :: o in blobs <==> o in order && TypeOf(types, o) == "blob"
  {
    blobs := [];
    for i := 0 to |order|
      invariant forall o :: o in blobs <==> o in order[..i] && TypeOf(types, o) == "blob"
    {
      if TypeOf(types, order[i]) == "blob" {
        blobs := blobs + [order[i]];
      }
    }
    assert order[..|order|] == order;
  }

  ghost predicate SomeDenied(m: Mirror, types: Types, deny: Matcher, oids: seq<OID>) {
    exists o :: o in oids && Denied(m, types, deny, o)
  }

  /** The paths of the denied blobs among `oids`, all of them and no others. */
  ghost predicate AreDeniedPaths(m: Mirror, types: Types, deny: Matcher, oids: seq<OID>, paths: seq<string>) {
    forall p :: p in paths <==> exists o :: o in oids && Denied(m, types, deny, o) && SitsAt(m, o, p)
  }

  lemma OneMore(m: Mirror, types: Types, deny: Matcher, oids: seq<OID>, oid: OID, paths: seq<string>, more: seq<string>)
    requires AreDeniedPaths(m, types, deny, oids, paths)
    requires if Denied(m, types, deny, oid) then forall p :: p in more <==> SitsAt(m, oid, p) else more == []
    ensures AreDeniedPaths(m, types, deny, oids + [oid], paths + more)
    ensures SomeDenied(m, types, deny, oids + [oid]) <==> SomeDenied(m, types, deny, oids) || Denied(m, types, deny, oid)
    ensures Undenied(m, types, deny, oids + [oid])
         == Undenied(m, types, deny, oids) + (if Denied(m, types, deny, oid) then [] else [oid])
  {
    hide Denied, SitsAt;
    assert (oids + [oid])[..|oids|] == oids;
    assert oid in oids + [oid];
  }

  /** The withholding loop, over objects whose paths are in hand. */
  method DropDenied(m: Mirror, types: Types, deny: Matcher, order: seq<OID>, blobPaths: Index)
    returns (allowed: seq<OID>, deniedPaths: seq<string>, withheld: nat)
    requires m.Prints() && forall o :: o in order && TypeOf(types, o) == "blob" ==>
      BuildIndex(m).Some? && PathsOf(blobPaths, o) == PathsOf(BuildIndex(m).value, o)
    ensures allowed == Undenied(m, types, deny, order)
    ensures withheld > 0 <==> SomeDenied(m, types, deny, order)
    ensures AreDeniedPaths(m, types, deny, order, deniedPaths)
  {
    NoneDenied(m, types, deny);
    hide Denied, SitsAt, AnyDenied, BuildIndex, Undenied, SomeDenied, AreDeniedPaths;
    allowed, deniedPaths, withheld := [], [], 0;
    assert order[..0] == [];
    for i := 0 to |order|
      invariant allowed == Undenied(m, types, deny, order[..i])
      invariant withheld > 0 <==> SomeDenied(m, types, deny, order[..i])
      invariant AreDeniedPaths(m, types, deny, order[..i], deniedPaths)
    {
      var oid := order[i];
      assert order[..i + 1] == order[..i] + [oid] && oid in order;
      if TypeOf(types, oid) != "blob" {
        NotABlob(m, types, deny, oid);
        OneMore(m, types, deny, order[..i], oid, deniedPaths, []);
        assert deniedPaths + [] == deniedPaths;
        allowed := allowed + [oid];
        continue;
      }
      var paths := PathsOf(blobPaths, oid);
      DeniedByIndex(m, types, deny, oid, paths);
      IndexIsComplete(m, oid);
      var denied := FirstDenied(deny, paths);
      OneMore(m, types, deny, order[..i], oid, deniedPaths, if denied then paths else []);
      if denied {
        withheld := withheld + 1;
        deniedPaths := deniedPaths + paths;
        continue;
      }
      assert deniedPaths + [] == deniedPaths;
      allowed := allowed + [oid];
    }
    assert order[..|order|] == order;
  }

  /** `cat-file --batch-check`; nothing is asked for an empty list. */
  function ObjectTypes(answer: Option<Types>, oids: seq<OID>): Option<Types> {
    if oids == [] then Some(map[]) else answer
  }

  predicate SomeBlob(types: Types, oids: seq<OID>) {
    exists o :: o in oids && TypeOf(types, o) == "blob"
  }

  /** git fails the withholding: the types cannot be had, or there is a blob and no index. */
  predicate CannotWithhold(m: Mirror, answer: Option<Types>, objs: seq<OID>) {
    var types := ObjectTypes(answer, objs);
    types.None? || (SomeBlob(types.value, objs) && BuildIndex(m).None?)
  }

  /**
   * The packed objects are exactly the wanted ones in first-seen order without repeats, minus the
   * blobs with a denied path anywhere in history. No result means git failed: the fetch is denied.
   */
  method Withhold(m: Mirror, answer: Option<Types>, deny: Matcher, objs: seq<OID>)
    returns (r: Option<(seq<OID>, seq<string>, nat)>)
    requires m.Prints() && "" !in objs
    ensures r.None? <==> CannotWithhold(m, answer, objs)
    ensures r.Some? ==> var types := ObjectTypes(answer, objs).value;
      && r.value.0 == Undenied(m, types, deny, FirstSeen(objs))
      && (r.value.2 > 0 <==> SomeDenied(m, types, deny, objs))
      && AreDeniedPaths(m, types, deny, objs, r.value.1)
  {
    hide Denied, SitsAt, AnyDenied, BuildIndex, Undenied;
    FirstSeenFacts(objs);
    var order := CollectOIDs(objs);
    var found := ObjectTypes(answer, order);
    assert order == [] <==> objs == [] by {
      if objs != [] {
        assert objs[0] in order;
      }
    }
    if found.None? {
      return None;
    }
    var types := found.value;
    var blobs := Blobs(types, order);
    assert blobs != [] <==> SomeBlob(types, objs) by {
      if blobs != [] {
        assert blobs[0] in blobs;
      }
    }
    var resolved := ResolveMany(m, blobs);
    if resolved.None? {
      return None;
    }
    forall o | o in order && TypeOf(types, o) == "blob"
      ensures BuildIndex(m).Some? && PathsOf(resolved.value, o) == PathsOf(BuildIndex(m).value, o)
    {
      assert o in blobs && blobs != [];
    }
    var allowed, deniedPaths, withheld := DropDenied(m, types, deny, order, resolved.value);
    SameMembers(m, types, deny, order, objs, deniedPaths);
    r := Some((allowed, deniedPaths, withheld));
  }

  lemma NoneDenied(m: Mirror, types: Types, deny: Matcher)
    ensures Undenied(m, types, deny, []) == [] && !SomeDenied(m, types, deny, [])
    ensures AreDeniedPaths(m, types, deny, [], [])
  {
  }

  lemma SameMembers(m: Mirror, types: Types, deny: Matcher, a: seq<OID>, b: seq<OID>, paths: seq<string>)
    requires forall o :: o in a <==> o in b
    ensures SomeDenied(m, types, deny, a) <==> SomeDenied(m, types, deny, b)
    ensures AreDeniedPaths(m, types, deny, a, paths) <==> AreDeniedPaths(m, types, deny, b, paths)
  {
    hide Denied, SitsAt;
  }

  lemma NotABlob(m: Mirror, types: Types, deny: Matcher, oid: OID)
    requires TypeOf(types, oid) != "blob"
    ensures !Denied(m, types, deny, oid)
  {
  }

  // ---------------------------------------------------------- on-demand wants

  /** A want no client may make on demand: a tree, or a blob at a denied path or at no path at all. */
  ghost predicate Refused(m: Mirror, types: Types, deny: Matcher, oid: OID) {
    || TypeOf(types, oid) == "tree"
    || (TypeOf(types, oid) == "blob" && (Denied(m, types, deny, oid) || !exists p :: SitsAt(m, oid, p)))
  }

  lemma RefusedByIndex(m: Mirror, types: Types, deny: Matcher, oid: OID, paths: seq<string>)
    requires m.Prints() && BuildIndex(m).Some? && paths == PathsOf(BuildIndex(m).value, oid) && TypeOf(types, oid) == "blob"
    ensures Refused(m, types, deny, oid) <==> paths == [] || AnyDenied(deny, paths)
  {
    hide BuildIndex, SitsAt, AnyDenied, PathsOf, Denied;
    IndexIsComplete(m, oid);
    DeniedByIndex(m, types, deny, oid, paths);
    if paths != [] {
      assert paths[0] in paths;
    }
  }

  /** Without an index no blob can be cleared, and a tree is still refused. */
  predicate Unclear(types: Types, oid: OID) {
    TypeOf(types, oid) == "blob" || TypeOf(types, oid) == "tree"
  }

  /** When the wants as a whole are refused; every failure refuses. */
  ghost predicate RefusesWants(m: Mirror, answer: Option<Types>, deny: Matcher, wants: seq<OID>) {
    wants != [] && (answer.Some? ==>
      exists o :: o in wants
        && if BuildIndex(m).Some? then Refused(m, answer.value, deny, o) else Unclear(answer.value, o))
  }

  /** The object id the refusal names: the first refused want, or the first that cannot be cleared. */
  ghost predicate Named(m: Mirror, answer: Option<Types>, deny: Matcher, wants: seq<OID>, oid: OID) {
    if answer.None? then wants != [] && oid == wants[0]
    else if BuildIndex(m).None? then oid in wants && Unclear(answer.value, oid)
    else exists i :: 0 <= i < |wants| && wants[i] == oid && Refused(m, answer.value, deny, oid)
                     && forall j :: 0 <= j < i ==> !Refused(m, answer.value, deny, wants[j])
  }

  /** The whole request is refused at the first such want, and whenever git cannot answer. */
  method OnDemandDeny(m: Mirror, answer: Option<Types>, deny: Matcher, wants: seq<OID>) returns (refuse: bool, oid: OID)
    requires m.Prints() && "" !in wants
    ensures refuse <==> RefusesWants(m, answer, deny, wants)
    ensures refuse ==> Named(m, answer, deny, wants, oid)
  {
    hide Refused, BuildIndex, AnyDenied;
    if wants == [] {
      return false, "";
    }
    if answer.None? {
      return true, wants[0];
    }
    var types := answer.value;
    var blobs := Blobs(types, wants);
    var resolved := ResolveMany(m, blobs);
    if resolved.None? {
      assert blobs[0] in blobs;
      return true, blobs[0];
    }
    for i := 0 to |wants|
      invariant BuildIndex(m).Some? ==> forall j :: 0 <= j < i ==> !Refused(m, types, deny, wants[j])
      invariant BuildIndex(m).None? ==> forall j :: 0 <= j < i ==> !Unclear(types, wants[j])
    {
      var o := wants[i];
      assert o in wants;
      if TypeOf(types, o) == "tree" {
        TreeIsRefused(m, types, deny, o);
        return true, o;
      }
      if TypeOf(types, o) != "blob" {
        OthersPass(m, types, deny, o);
        continue;
      }
      assert o in blobs;
      var paths := PathsOf(resolved.value, o);
      RefusedByIndex(m, types, deny, o, paths);
      if paths == [] {
        return true, o;
      }
      var denied := FirstDenied(deny, paths);
      if denied {
        return true, o;
      }
    }
    return false, "";
  }

  lemma TreeIsRefused(m: Mirror, types: Types, deny: Matcher, oid: OID)
    requires TypeOf(types, oid) == "tree"
    ensures Refused(m, types, deny, oid)
  {
  }

  lemma OthersPass(m: Mirror, types: Types, deny: Matcher, oid: OID)
    requires TypeOf(types, oid) != "tree" && TypeOf(types, oid) != "blob"
    ensures !Refused(m, types, deny, oid)
  {
  }

  // ------------------------------------------------------------- what is served

  predicate RequestedFilter(caps: seq<string>) {
    exists c :: c in caps && (c == "filter" || "filter=" <= c)
  }

  /** A filter is requested by `filter` or `filter=` with any value, and by nothing else. */
  lemma FilterRequests(caps: seq<string>)
    ensures RequestedFilter(caps) <==>
      exists i :: 0 <= i < |caps| && IsFilter(caps[i])
  {
    hide IsFilter;
    if c :| c in caps && (c == "filter" || "filter=" <= c) {
      FilterCap(c);
      var i :| 0 <= i < |caps| && caps[i] == c;
      assert IsFilter(caps[i]);
    }
    if i :| 0 <= i < |caps| && IsFilter(caps[i]) {
      FilterCap(caps[i]);
      assert caps[i] in caps;
    }
  }

  predicate IsFilter(c: string) {
    |c| >= 6 && c[..6] == "filter" && (|c| == 6 || c[6] == '=')
  }

  lemma FilterCap(c: string)
    ensures c == "filter" || "filter=" <= c <==> IsFilter(c)
  {
    if |c| > 6 && c[..6] == "filter" && c[6] == '=' {
      assert c[..7] == "filter" + "=";
    }
    if "filter=" <= c {
      assert c[..6] == c[..7][..6];
      assert c[6] == c[..7][6];
    }
  }

  datatype Outcome = Refusal | GitFailed | Pack(oids: seq<OID>)

  /**
   * The final round of a protected fetch, from the wanted object set to the packfile's object list:
   * a refusal, a failure of git, or the pack, each exactly when it should be.
   */
  method ServePack(m: Mirror, wantTypes: Option<Types>, answer: Option<Types>, deny: Matcher,
                   wants: seq<OID>, objs: seq<OID>, caps: seq<string>)
    returns (outcome: Outcome)
    requires m.Prints() && "" !in wants && "" !in objs
    ensures outcome.GitFailed? <==> !RefusesWants(m, wantTypes, deny, wants) && CannotWithhold(m, answer, objs)
    ensures outcome.Refusal? <==>
      || RefusesWants(m, wantTypes, deny, wants)
      || (!CannotWithhold(m, answer, objs) && !RequestedFilter(caps)
          && SomeDenied(m, ObjectTypes(answer, objs).value, deny, objs))
    ensures outcome.Pack? ==> var types := ObjectTypes(answer, objs).value;
      && outcome.oids == Undenied(m, types, deny, FirstSeen(objs))
      && (forall o :: o in outcome.oids ==> !Denied(m, types, deny, o))
  {
    hide RefusesWants, CannotWithhold, Denied, SitsAt, BuildIndex;
    assert CannotWithhold(m, answer, objs) || ObjectTypes(answer, objs).Some? by {
      TypesOrFailure(m, answer, objs);
    }
    var refuse, oid := OnDemandDeny(m, wantTypes, deny, wants);
    if refuse {
      return Refusal;
    }
    var r := Withhold(m, answer, deny, objs);
    if r.None? {
      return GitFailed;
    }
    UndeniedMembers(m, ObjectTypes(answer, objs).value, deny, FirstSeen(objs));
    if r.value.2 > 0 && !RequestedFilter(caps) {
      return Refusal;
    }
    outcome := Pack(r.value.0);
  }

  lemma TypesOrFailure(m: Mirror, answer: Option<Types>, objs: seq<OID>)
    ensures CannotWithhold(m, answer, objs) || ObjectTypes(answer, objs).Some?
  {
  }
}
