/** The recursive listing: a worklist over folders, guarded by a visited set. */
module Walk {
  import opened Wrappers
  import opened Sequences
  import opened ByteOrder
  import opened Catalog

  datatype HfsPathEntry = HfsPathEntry(path: string, isDir: bool, cnid: u32)
  /** A folder waiting on the stack with the path its children are prefixed by. */
  datatype Pending = Pending(cnid: u32, prefix: string)

  const ROOT: Pending := Pending(ROOT_FOLDER_CNID, "")

  function JoinPath(prefix: string, name: string): string {
    if prefix == "" then name else prefix + "/" + name
  }

  function Qualify(prefix: string, e: HfsEntry): HfsPathEntry {
    HfsPathEntry(JoinPath(prefix, e.name), e.isDir, e.cnid)
  }

  // ---- specification -------------------------------------------------------

  function Children(recs: seq<Bytes>, parent: u32): seq<HfsEntry> {
    FilterMap(ChildOf(parent), recs)
  }

  ghost function Cnids(ps: seq<Pending>): set<u32> {
    set p | p in ps :: p.cnid
  }

  /** The folders among `entries` that are met for the first time, in order. */
  ghost function NewFolders(entries: seq<HfsEntry>, prefix: string, visited: set<u32>): seq<Pending> {
    if entries == [] then []
    else
      var before := NewFolders(DropLast(entries), prefix, visited);
      var e := Last(entries);
      if e.isDir && e.cnid !in visited + Cnids(before)
      then before + [Pending(e.cnid, JoinPath(prefix, e.name))]
      else before
  }

  function Listing(prefix: string, entries: seq<HfsEntry>): (out: seq<HfsPathEntry>)
    ensures |out| == |entries|
    ensures forall i :: 0 <= i < |entries| ==> out[i] == Qualify(prefix, entries[i])
  {
    seq(|entries|, i requires 0 <= i < |entries| => Qualify(prefix, entries[i]))
  }

  /** Every folder CNID the catalog mentions. */
  ghost function FolderCnids(recs: seq<Bytes>): set<u32> {
    set rec | rec in recs && RecordEntry(rec).Some? && RecordEntry(rec).value.1.isDir :: RecordEntry(rec).value.1.cnid
  }

  lemma {:induction false} FolderChildIsKnown(recs: seq<Bytes>, parent: u32, e: HfsEntry)
    requires e in Children(recs, parent) && e.isDir
    ensures e.cnid in FolderCnids(recs)
  {
    FilterMapMember(ChildOf(parent), recs, e);
    var i :| 0 <= i < |recs| && ChildOf(parent)(recs[i]) == Some(e);
    assert recs[i] in recs && RecordEntry(recs[i]).value.1 == e;
  }

  lemma {:induction false} NewFoldersShape(
    recs: seq<Bytes>, parent: u32, entries: seq<HfsEntry>, prefix: string, visited: set<u32>)
    requires forall e :: e in entries ==> e in Children(recs, parent)
    ensures Cnids(NewFolders(entries, prefix, visited)) !! visited
    ensures Cnids(NewFolders(entries, prefix, visited)) <= FolderCnids(recs)
  {
    if entries != [] {
      NewFoldersShape(recs, parent, DropLast(entries), prefix, visited);
      var before := NewFolders(DropLast(entries), prefix, visited);
      var e := Last(entries);
      if e.isDir && e.cnid !in visited + Cnids(before) {
        FolderChildIsKnown(recs, parent, e);
        CnidsAppend(before, [Pending(e.cnid, JoinPath(prefix, e.name))]);
      }
    }
  }

  lemma {:induction false} CnidsAppend(a: seq<Pending>, b: seq<Pending>)
    ensures Cnids(a + b) == Cnids(a) + Cnids(b)
  {
    forall c | c in Cnids(a) + Cnids(b) ensures c in Cnids(a + b) {
      if p :| p in a && p.cnid == c {
        assert p in a + b;
      } else {
        var p :| p in b && p.cnid == c;
        assert p in a + b;
      }
    }
  }

  lemma {:induction false} CnidsSnoc(a: seq<Pending>, p: Pending)
    ensures Cnids(a + [p]) == Cnids(a) + {p.cnid}
  {
    CnidsAppend(a, [p]);
    assert p in [p];
  }

  /** The folders in the order the worklist expands them. Either a new folder of the
      catalog is marked visited, or the stack gets shorter. */
  ghost function Order(recs: seq<Bytes>, stack: seq<Pending>, visited: set<u32>): seq<Pending>
    decreases FolderCnids(recs) - visited, |stack|
  {
    if stack == [] then []
    else
      var top := Last(stack);
      var found := NewFolders(Children(recs, top.cnid), top.prefix, visited);
      NewFoldersShape(recs, top.cnid, Children(recs, top.cnid), top.prefix, visited);
      Progress(recs, found, visited);
      [top] + Order(recs, DropLast(stack) + found, visited + Cnids(found))
  }

  lemma {:induction false} Progress(recs: seq<Bytes>, found: seq<Pending>, visited: set<u32>)
    requires Cnids(found) !! visited && Cnids(found) <= FolderCnids(recs)
    ensures found == [] ==> visited + Cnids(found) == visited
    ensures found != [] ==> FolderCnids(recs) - (visited + Cnids(found)) < FolderCnids(recs) - visited
  {
    if found != [] {
      assert found[0].cnid in Cnids(found);
    }
  }

  ghost function Output(recs: seq<Bytes>, order: seq<Pending>): seq<HfsPathEntry> {
    if order == [] then []
    else Listing(order[0].prefix, Children(recs, order[0].cnid)) + Output(recs, order[1..])
  }

  ghost function FromRoot(recs: seq<Bytes>): seq<Pending> {
    Order(recs, [ROOT], {ROOT_FOLDER_CNID})
  }

  // ---- the worklist --------------------------------------------------------

  method Walk(volume: Volume) returns (r: Option<seq<HfsPathEntry>>)
    ensures r.Some? <==> CatalogRecords(volume).Some?
    ensures r.Some? ==> r.value == Output(CatalogRecords(volume).value, FromRoot(CatalogRecords(volume).value))
  {
    var root := ListDir(volume, ROOT_FOLDER_CNID);
    if root.None? {
      return None;
    }
    ghost var recs := CatalogRecords(volume).value;
    var out: seq<HfsPathEntry> := [];
    var visited: set<u32> := {ROOT_FOLDER_CNID};
    var stack: seq<Pending> := [ROOT];
    while stack != []
      invariant out + Output(recs, Order(recs, stack, visited)) == Output(recs, FromRoot(recs))
      decreases FolderCnids(recs) - visited, |stack|
    {
      var top := Last(stack);
      ghost var stack0, visited0, out0 := stack, visited, out;
      stack := DropLast(stack);
      var listed := ListDir(volume, top.cnid);
      if listed.None? {
        continue;
      }
      var entries := listed.value;
      out, visited, stack := Expand(top.prefix, entries, out, visited, stack);
      NewFoldersShape(recs, top.cnid, entries, top.prefix, visited0);
      Progress(recs, NewFolders(entries, top.prefix, visited0), visited0);
      OrderStep(recs, stack0, visited0, out0);
    }
    return Some(out);
  }

  /** The inner loop: list one folder's entries and push the folders met first. */
  method Expand(
    prefix: string, entries: seq<HfsEntry>, out0: seq<HfsPathEntry>, visited0: set<u32>, stack0: seq<Pending>)
    returns (out: seq<HfsPathEntry>, visited: set<u32>, stack: seq<Pending>)
    ensures out == out0 + Listing(prefix, entries)
    ensures visited == visited0 + Cnids(NewFolders(entries, prefix, visited0))
    ensures stack == stack0 + NewFolders(entries, prefix, visited0)
  {
    out, visited, stack := out0, visited0, stack0;
    for i := 0 to |entries|
      invariant out == out0 + Listing(prefix, entries[..i])
      invariant visited == visited0 + Cnids(NewFolders(entries[..i], prefix, visited0))
      invariant stack == stack0 + NewFolders(entries[..i], prefix, visited0)
    {
      var e := entries[i];
      var path := JoinPath(prefix, e.name);
      ghost var before := NewFolders(entries[..i], prefix, visited0);
      assert DropLast(entries[..i + 1]) == entries[..i];
      if e.isDir && e.cnid !in visited {
        visited := visited + {e.cnid};
        stack := stack + [Pending(e.cnid, path)];
        CnidsSnoc(before, Pending(e.cnid, path));
      }
      out := out + [HfsPathEntry(path, e.isDir, e.cnid)];
      assert Listing(prefix, entries[..i + 1]) == Listing(prefix, entries[..i]) + [Qualify(prefix, e)];
    }
    assert entries[..|entries|] == entries;
  }

  lemma {:induction false} OrderStep(recs: seq<Bytes>, stack: seq<Pending>, visited: set<u32>, out: seq<HfsPathEntry>)
    requires stack != []
    ensures
      var top := Last(stack);
      var entries := Children(recs, top.cnid);
      var found := NewFolders(entries, top.prefix, visited);
      out + Output(recs, Order(recs, stack, visited))
      == (out + Listing(top.prefix, entries))
         + Output(recs, Order(recs, DropLast(stack) + found, visited + Cnids(found)))
  {
    hide Order, Children, NewFolders, Listing;
    OrderUnfold(recs, stack, visited);
    var rest := Order(recs, NextStack(recs, stack, visited), NextVisited(recs, stack, visited));
    assert ([Last(stack)] + rest)[1..] == rest;
  }

  // ---- which folders are expanded -------------------------------------------

  /** `child` is a folder entry of the folder `parent`. */
  ghost predicate FolderEdge(recs: seq<Bytes>, parent: u32, child: u32) {
    exists e :: e in Children(recs, parent) && e.isDir && e.cnid == child
  }

  ghost predicate IsFolderPath(recs: seq<Bytes>, path: seq<u32>) {
    && path != [] && path[0] == 2
    && forall i :: 0 < i < |path| ==> FolderEdge(recs, path[i - 1], path[i])
  }

  /** Reachable from the root through folder entries. */
  ghost predicate Reachable(recs: seq<Bytes>, cnid: u32) {
    exists path: seq<u32> :: IsFolderPath(recs, path) && Last(path) == cnid
  }

  ghost predicate DistinctCnids(ps: seq<Pending>) {
    forall i, j :: 0 <= i < j < |ps| ==> ps[i].cnid != ps[j].cnid
  }

  lemma {:induction false} NewFoldersDistinct(entries: seq<HfsEntry>, prefix: string, visited: set<u32>)
    ensures DistinctCnids(NewFolders(entries, prefix, visited))
    ensures forall e :: e in entries && e.isDir ==> e.cnid in visited + Cnids(NewFolders(entries, prefix, visited))
  {
    if entries != [] {
      NewFoldersDistinct(DropLast(entries), prefix, visited);
      var before := NewFolders(DropLast(entries), prefix, visited);
      var e := Last(entries);
      CnidsAppend(before, [Pending(e.cnid, JoinPath(prefix, e.name))]);
      assert Pending(e.cnid, JoinPath(prefix, e.name)) in [Pending(e.cnid, JoinPath(prefix, e.name))];
      assert forall p :: p in before ==> p.cnid in Cnids(before);
    }
  }

  /** New folders come from folder entries of the folder being listed. */
  lemma {:induction false} NewFoldersOrigin(entries: seq<HfsEntry>, prefix: string, visited: set<u32>, p: Pending)
    requires p in NewFolders(entries, prefix, visited)
    ensures exists e :: e in entries && e.isDir && p == Pending(e.cnid, JoinPath(prefix, e.name))
  {
    var e := Last(entries);
    if p != Pending(e.cnid, JoinPath(prefix, e.name)) || !e.isDir {
      NewFoldersOrigin(DropLast(entries), prefix, visited, p);
      var e' :| e' in DropLast(entries) && e'.isDir && p == Pending(e'.cnid, JoinPath(prefix, e'.name));
      assert e' in entries;
    }
  }

  /** What one round leaves on the stack. */
  ghost function NextStack(recs: seq<Bytes>, stack: seq<Pending>, visited: set<u32>): seq<Pending>
    requires stack != []
  {
    DropLast(stack) + NewFolders(Children(recs, Last(stack).cnid), Last(stack).prefix, visited)
  }

  ghost function NextVisited(recs: seq<Bytes>, stack: seq<Pending>, visited: set<u32>): set<u32>
    requires stack != []
  {
    visited + Cnids(NewFolders(Children(recs, Last(stack).cnid), Last(stack).prefix, visited))
  }

  lemma {:induction false} OrderUnfold(recs: seq<Bytes>, stack: seq<Pending>, visited: set<u32>)
    requires stack != []
    ensures Order(recs, stack, visited)
         == [Last(stack)] + Order(recs, NextStack(recs, stack, visited), NextVisited(recs, stack, visited))
    ensures NextVisited(recs, stack, visited) - visited <= FolderCnids(recs)
    ensures FolderCnids(recs) - NextVisited(recs, stack, visited) < FolderCnids(recs) - visited
         || (FolderCnids(recs) - NextVisited(recs, stack, visited) == FolderCnids(recs) - visited
             && |NextStack(recs, stack, visited)| < |stack|)
  {
    var top := Last(stack);
    NewFoldersShape(recs, top.cnid, Children(recs, top.cnid), top.prefix, visited);
    Progress(recs, NewFolders(Children(recs, top.cnid), top.prefix, visited), visited);
  }

  /** The stack never holds a CNID twice, and everything on it is marked. */
  ghost predicate StackOk(stack: seq<Pending>, visited: set<u32>) {
    DistinctCnids(stack) && Cnids(stack) <= visited
  }

  lemma {:induction false} StackStaysOk(recs: seq<Bytes>, stack: seq<Pending>, visited: set<u32>)
    requires stack != [] && StackOk(stack, visited)
    ensures StackOk(NextStack(recs, stack, visited), NextVisited(recs, stack, visited))
    ensures Last(stack).cnid !in Cnids(NextStack(recs, stack, visited))
  {
    var top := Last(stack);
    var found := NewFolders(Children(recs, top.cnid), top.prefix, visited);
    NewFoldersShape(recs, top.cnid, Children(recs, top.cnid), top.prefix, visited);
    NewFoldersDistinct(Children(recs, top.cnid), top.prefix, visited);
    CnidsAppend(DropLast(stack), found);
    assert forall p :: p in stack ==> p.cnid in Cnids(stack);
    assert forall p :: p in found ==> p.cnid in Cnids(found);
    assert Cnids(DropLast(stack)) <= Cnids(stack);
  }

  /** Each folder is expanded once. */
  lemma {:induction false} ExpandedOnce(recs: seq<Bytes>, stack: seq<Pending>, visited: set<u32>)
    requires StackOk(stack, visited)
    ensures DistinctCnids(Order(recs, stack, visited))
    ensures forall p :: p in Order(recs, stack, visited) ==> p.cnid in Cnids(stack) || p.cnid !in visited
    decreases FolderCnids(recs) - visited, |stack|
  {
    hide Children, NewFolders, FolderCnids;
    if stack != [] {
      var stack', visited' := NextStack(recs, stack, visited), NextVisited(recs, stack, visited);
      var top := Last(stack);
      OrderUnfold(recs, stack, visited);
      StackStaysOk(recs, stack, visited);
      ExpandedOnce(recs, stack', visited');
      var rest := Order(recs, stack', visited');
      assert top.cnid in Cnids(stack);
      forall p | p in rest ensures p.cnid != top.cnid && (p.cnid in Cnids(stack) || p.cnid !in visited) {
        if p.cnid in Cnids(stack') {
          var s :| s in stack' && s.cnid == p.cnid;
          if s !in DropLast(stack) {
            NewFoldersShape(recs, top.cnid, Children(recs, top.cnid), top.prefix, visited);
            assert s.cnid in Cnids(NewFolders(Children(recs, top.cnid), top.prefix, visited));
          }
        }
      }
    }
  }

  /** Only reachable folders are expanded. */
  lemma {:induction false} ExpandedAreReachable(recs: seq<Bytes>, stack: seq<Pending>, visited: set<u32>)
    requires forall p :: p in stack ==> Reachable(recs, p.cnid)
    ensures forall p :: p in Order(recs, stack, visited) ==> Reachable(recs, p.cnid)
    decreases FolderCnids(recs) - visited, |stack|
  {
    if stack != [] {
      OrderUnfold(recs, stack, visited);
      var top := Last(stack);
      forall p | p in NextStack(recs, stack, visited) ensures Reachable(recs, p.cnid) {
        if p !in DropLast(stack) {
          NewFoldersOrigin(Children(recs, top.cnid), top.prefix, visited, p);
          ReachableStep(recs, top.cnid, p.cnid);
        }
      }
      ExpandedAreReachable(recs, NextStack(recs, stack, visited), NextVisited(recs, stack, visited));
    }
  }

  lemma {:induction false} ReachableStep(recs: seq<Bytes>, parent: u32, child: u32)
    requires Reachable(recs, parent) && FolderEdge(recs, parent, child)
    ensures Reachable(recs, child)
  {
    var path: seq<u32> :| IsFolderPath(recs, path) && Last(path) == parent;
    var longer: seq<u32> := path + [child];
    assert IsFolderPath(recs, longer) && Last(longer) == child;
  }

  /** Nothing marked or found is forgotten. */
  lemma {:induction false} ExpandedIsClosed(recs: seq<Bytes>, stack: seq<Pending>, visited: set<u32>)
    ensures forall p :: p in stack ==> p in Order(recs, stack, visited)
    ensures forall p, c :: p in Order(recs, stack, visited) && FolderEdge(recs, p.cnid, c) ==>
      c in visited || c in Cnids(Order(recs, stack, visited))
    decreases FolderCnids(recs) - visited, |stack|
  {
    if stack != [] {
      var stack', visited' := NextStack(recs, stack, visited), NextVisited(recs, stack, visited);
      var top := Last(stack);
      OrderUnfold(recs, stack, visited);
      ExpandedIsClosed(recs, stack', visited');
      var order, rest := Order(recs, stack, visited), Order(recs, stack', visited');
      NewFoldersDistinct(Children(recs, top.cnid), top.prefix, visited);
      assert forall p :: p in rest ==> p in order;
      assert forall p :: p in stack' ==> p in order;
      assert Cnids(rest) <= Cnids(order) && Cnids(stack') <= Cnids(order);
      CnidsAppend(DropLast(stack), NewFolders(Children(recs, top.cnid), top.prefix, visited));
      assert visited' <= visited + Cnids(order);
    }
  }

  /** The walk expands exactly the folders reachable from the root, each once. */
  lemma {:induction false} WalkExpandsTheReachableFolders(recs: seq<Bytes>)
    ensures DistinctCnids(FromRoot(recs))
    ensures forall c :: c in Cnids(FromRoot(recs)) <==> Reachable(recs, c)
  {
    var order := FromRoot(recs);
    assert Cnids([ROOT]) == {ROOT_FOLDER_CNID};
    ExpandedOnce(recs, [ROOT], {ROOT_FOLDER_CNID});
    var start: seq<u32> := [ROOT_FOLDER_CNID];
    assert IsFolderPath(recs, start) && Last(start) == ROOT_FOLDER_CNID;
    ExpandedAreReachable(recs, [ROOT], {ROOT_FOLDER_CNID});
    ExpandedIsClosed(recs, [ROOT], {ROOT_FOLDER_CNID});
    assert ROOT in [ROOT];
    forall c | Reachable(recs, c) ensures c in Cnids(order) {
      var path: seq<u32> :| IsFolderPath(recs, path) && Last(path) == c;
      PathIsExpanded(recs, path, |path| - 1);
    }
  }

  lemma {:induction false} PathIsExpanded(recs: seq<Bytes>, path: seq<u32>, i: nat)
    requires IsFolderPath(recs, path) && i < |path|
    requires ROOT in FromRoot(recs)
    requires forall p, c :: p in FromRoot(recs) && FolderEdge(recs, p.cnid, c) ==>
      c in {ROOT_FOLDER_CNID} || c in Cnids(FromRoot(recs))
    ensures path[i] in Cnids(FromRoot(recs))
  {
    assert ROOT.cnid in Cnids(FromRoot(recs));
    if i > 0 {
      PathIsExpanded(recs, path, i - 1);
      var p :| p in FromRoot(recs) && p.cnid == path[i - 1];
      assert FolderEdge(recs, p.cnid, path[i]);
    }
  }

  // ---- what is listed ------------------------------------------------------

  ghost function EntryUnder(parents: set<u32>): Bytes -> Option<HfsEntry> {
    (rec: Bytes) =>
      match RecordEntry(rec)
      case Some(pe) => if pe.0 in parents then Some(pe.1) else None
      case None => None
  }

  /** The entries listed, without their paths. */
  ghost function Listed(recs: seq<Bytes>, order: seq<Pending>): seq<HfsEntry> {
    if order == [] then [] else Children(recs, order[0].cnid) + Listed(recs, order[1..])
  }

  lemma {:induction false} MultisetConcat<T>(xs: seq<T>, ys: seq<T>)
    ensures multiset(xs + ys) == multiset(xs) + multiset(ys)
  {
  }

  lemma {:induction false} OneMoreParent(recs: seq<Bytes>, parents: set<u32>, p: u32)
    requires p !in parents
    ensures multiset(FilterMap(EntryUnder(parents + {p}), recs))
         == multiset(FilterMap(EntryUnder(parents), recs)) + multiset(Children(recs, p))
  {
    hide RecordEntry;
    if recs != [] {
      var init, rec := DropLast(recs), Last(recs);
      OneMoreParent(init, parents, p);
      var joined, before, added := EntryUnder(parents + {p})(rec), EntryUnder(parents)(rec), ChildOf(p)(rec);
      assert joined == if before.Some? then before else added;
      assert before.None? || added.None?;
      MultisetConcat(FilterMap(EntryUnder(parents + {p}), init), Opt(joined));
      MultisetConcat(FilterMap(EntryUnder(parents), init), Opt(before));
      MultisetConcat(FilterMap(ChildOf(p), init), Opt(added));
    }
  }

  lemma {:induction false} ListedIsEveryEntry(recs: seq<Bytes>, order: seq<Pending>)
    requires DistinctCnids(order)
    ensures multiset(Listed(recs, order)) == multiset(FilterMap(EntryUnder(Cnids(order)), recs))
  {
    if order == [] {
      FilterMapNone(EntryUnder(Cnids(order)), recs);
    } else {
      var rest := order[1..];
      ListedIsEveryEntry(recs, rest);
      assert order == [order[0]] + rest;
      CnidsAppend([order[0]], rest);
      assert Cnids([order[0]]) == {order[0].cnid};
      assert Cnids(order) == Cnids(rest) + {order[0].cnid};
      OneMoreParent(recs, Cnids(rest), order[0].cnid);
    }
  }

  /** `out[q]` is `entry` under some path prefix. */
  ghost predicate Shows(shown: HfsPathEntry, entry: HfsEntry) {
    exists prefix :: shown == Qualify(prefix, entry)
  }

  lemma {:induction false} OutputShowsListed(recs: seq<Bytes>, order: seq<Pending>)
    ensures |Output(recs, order)| == |Listed(recs, order)|
    ensures forall q :: 0 <= q < |Listed(recs, order)| ==> Shows(Output(recs, order)[q], Listed(recs, order)[q])
  {
    hide Children;
    if order != [] {
      OutputShowsListed(recs, order[1..]);
      var entries := Children(recs, order[0].cnid);
      var block := Listing(order[0].prefix, entries);
      forall q | 0 <= q < |Listed(recs, order)|
        ensures Shows(Output(recs, order)[q], Listed(recs, order)[q])
      {
        if q < |block| {
          assert block[q] == Qualify(order[0].prefix, entries[q]);
        } else {
          assert Output(recs, order)[q] == Output(recs, order[1..])[q - |block|];
        }
      }
    }
  }

  /** The walk shows every catalog entry that lies under a reachable folder, as often
      as the catalog records it, and nothing else, whatever cycles or duplicated
      CNIDs the catalog holds. */
  lemma {:induction false} WalkIsExact(recs: seq<Bytes>, reachable: set<u32>)
    requires forall c :: c in reachable <==> Reachable(recs, c)
    ensures var out, listed := Output(recs, FromRoot(recs)), Listed(recs, FromRoot(recs));
      && |out| == |listed|
      && (forall q :: 0 <= q < |out| ==> Shows(out[q], listed[q]))
      && multiset(listed) == multiset(FilterMap(EntryUnder(reachable), recs))
  {
    WalkExpandsTheReachableFolders(recs);
    OutputShowsListed(recs, FromRoot(recs));
    ListedIsEveryEntry(recs, FromRoot(recs));
    assert reachable == Cnids(FromRoot(recs));
  }

  // ---- where a path comes from ----------------------------------------------

  /** `p` is the root, or `out` shows it as a folder under that very path. */
  ghost predicate Shown(out: seq<HfsPathEntry>, p: Pending) {
    p == Pending(2, "") || HfsPathEntry(p.prefix, true, p.cnid) in out
  }

  /** `shown` is `e` under the path `prefix`; the root's own path is empty. */
  ghost predicate IsUnder(shown: HfsPathEntry, prefix: string, e: HfsEntry) {
    shown == HfsPathEntry(if prefix == "" then e.name else prefix + "/" + e.name, e.isDir, e.cnid)
  }

  /** Entry `q` is a child of a folder shown before it, under that folder's path. */
  ghost predicate Sourced(recs: seq<Bytes>, out: seq<HfsPathEntry>, q: nat)
    requires q < |out|
  {
    exists p, e :: Shown(out[..q], p) && e in Children(recs, p.cnid) && IsUnder(out[q], p.prefix, e)
  }

  lemma {:induction false} SourcedExtends(recs: seq<Bytes>, out: seq<HfsPathEntry>, more: seq<HfsPathEntry>, q: nat)
    requires q < |out| && Sourced(recs, out, q)
    ensures Sourced(recs, out + more, q)
  {
    assert (out + more)[..q] == out[..q];
  }

  lemma {:induction false} BlockIsSourced(recs: seq<Bytes>, done: seq<HfsPathEntry>, p: Pending, q: nat)
    requires Shown(done, p)
    requires |done| <= q < |done| + |Children(recs, p.cnid)|
    ensures Sourced(recs, done + Listing(p.prefix, Children(recs, p.cnid)), q)
  {
    var entries := Children(recs, p.cnid);
    var out := done + Listing(p.prefix, entries);
    var e := entries[q - |done|];
    assert e in entries && IsUnder(out[q], p.prefix, e);
    assert out[..q] == done + Listing(p.prefix, entries)[..q - |done|];
    assert Shown(out[..q], p);
  }

  lemma {:induction false} NextStackIsShown(
    recs: seq<Bytes>, stack: seq<Pending>, visited: set<u32>, done: seq<HfsPathEntry>, p: Pending)
    requires stack != [] && (forall s :: s in stack ==> Shown(done, s))
    requires p in NextStack(recs, stack, visited)
    ensures Shown(done + Listing(Last(stack).prefix, Children(recs, Last(stack).cnid)), p)
  {
    var top := Last(stack);
    var entries := Children(recs, top.cnid);
    var block := Listing(top.prefix, entries);
    if p in DropLast(stack) {
      assert p in stack && Shown(done, p);
    } else {
      NewFoldersOrigin(entries, top.prefix, visited, p);
      var e :| e in entries && e.isDir && p == Pending(e.cnid, JoinPath(top.prefix, e.name));
      var i :| 0 <= i < |entries| && entries[i] == e;
      assert block[i] == Qualify(top.prefix, e);
      assert Qualify(top.prefix, e) in block;
    }
  }

  lemma {:induction false} OutputIsSourced(
    recs: seq<Bytes>, stack: seq<Pending>, visited: set<u32>, done: seq<HfsPathEntry>)
    requires forall s :: s in stack ==> Shown(done, s)
    requires forall q :: 0 <= q < |done| ==> Sourced(recs, done, q)
    ensures var out := done + Output(recs, Order(recs, stack, visited));
      forall q :: 0 <= q < |out| ==> Sourced(recs, out, q)
    decreases FolderCnids(recs) - visited, |stack|
  {
    if stack == [] {
      assert done + [] == done;
    } else {
      OrderUnfold(recs, stack, visited);
      OrderStep(recs, stack, visited, done);
      var top := Last(stack);
      var block := Listing(top.prefix, Children(recs, top.cnid));
      assert top in stack;
      forall q | 0 <= q < |done + block| ensures Sourced(recs, done + block, q) {
        if q < |done| {
          SourcedExtends(recs, done, block, q);
        } else {
          BlockIsSourced(recs, done, top, q);
        }
      }
      forall s | s in NextStack(recs, stack, visited) ensures Shown(done + block, s) {
        NextStackIsShown(recs, stack, visited, done, s);
      }
      OutputIsSourced(recs, NextStack(recs, stack, visited), NextVisited(recs, stack, visited), done + block);
    }
  }

  /** Every path in the output is built from a folder already in the output. */
  lemma {:induction false} PathsHaveProvenance(recs: seq<Bytes>, q: nat)
    requires q < |Output(recs, FromRoot(recs))|
    ensures Sourced(recs, Output(recs, FromRoot(recs)), q)
  {
    OutputIsSourced(recs, [ROOT], {ROOT_FOLDER_CNID}, []);
    var done: seq<HfsPathEntry> := [];
    var out := Output(recs, FromRoot(recs));
    assert done + Output(recs, Order(recs, [ROOT], {ROOT_FOLDER_CNID})) == out;
  }

  // ---- a path is a way through the folders -------------------------------------------

  /** The path the walk builds along a way down from the root. */
  ghost function JoinAll(names: seq<string>): string {
    if names == [] then "" else JoinPath(JoinAll(DropLast(names)), Last(names))
  }

  /** Folder `child` is an entry of folder `parent` under `name`. */
  ghost predicate NamedEdge(recs: seq<Bytes>, parent: u32, child: u32, name: string) {
    HfsEntry(name, true, child) in Children(recs, parent)
  }

  /** A way from the root through folder entries: the folders passed, none twice, and the
      names of all but the first. */
  ghost predicate IsTrail(recs: seq<Bytes>, folders: seq<u32>, names: seq<string>) {
    && |folders| == |names| + 1 && folders[0] == 2 && Distinct(folders)
    && forall i :: 0 <= i < |names| ==> NamedEdge(recs, folders[i], folders[i + 1], names[i])
  }

  /** `p` waits at the end of such a way, over folders already visited. */
  ghost predicate Reached(recs: seq<Bytes>, visited: set<u32>, p: Pending) {
    exists folders: seq<u32>, names: seq<string> :: EndsAt(recs, visited, p, folders, names)
  }

  ghost predicate EndsAt(recs: seq<Bytes>, visited: set<u32>, p: Pending, folders: seq<u32>, names: seq<string>) {
    && IsTrail(recs, folders, names) && Last(folders) == p.cnid && JoinAll(names) == p.prefix
    && forall c :: c in folders ==> c in visited
  }

  lemma {:induction false} ReachedExtends(
    recs: seq<Bytes>, visited: set<u32>, visited': set<u32>, p: Pending, child: u32, name: string)
    requires Reached(recs, visited, p) && NamedEdge(recs, p.cnid, child, name)
    requires child !in visited && visited + {child} <= visited'
    ensures Reached(recs, visited', Pending(child, JoinPath(p.prefix, name)))
  {
    var folders: seq<u32>, names: seq<string> :| EndsAt(recs, visited, p, folders, names);
    var folders', names' := folders + [child], names + [name];
    assert DropLast(names') == names;
    forall i | 0 <= i < |names'| ensures NamedEdge(recs, folders'[i], folders'[i + 1], names'[i]) {
      assert i < |names| ==> NamedEdge(recs, folders[i], folders[i + 1], names[i]);
    }
    assert EndsAt(recs, visited', Pending(child, JoinPath(p.prefix, name)), folders', names');
  }

  lemma {:induction false} ReachedStays(recs: seq<Bytes>, visited: set<u32>, visited': set<u32>, p: Pending)
    requires Reached(recs, visited, p) && visited <= visited'
    ensures Reached(recs, visited', p)
  {
    var folders: seq<u32>, names: seq<string> :| EndsAt(recs, visited, p, folders, names);
    assert EndsAt(recs, visited', p, folders, names);
  }

  lemma {:induction false} NextStackIsReached(recs: seq<Bytes>, stack: seq<Pending>, visited: set<u32>, p: Pending)
    requires stack != [] && forall s :: s in stack ==> Reached(recs, visited, s)
    requires p in NextStack(recs, stack, visited)
    ensures Reached(recs, NextVisited(recs, stack, visited), p)
  {
    hide Reached, Children, NewFolders;
    var top := Last(stack);
    var found := NewFolders(Children(recs, top.cnid), top.prefix, visited);
    if p in DropLast(stack) {
      assert p in stack;
      ReachedStays(recs, visited, visited + Cnids(found), p);
    } else {
      assert p in found && top in stack;
      NewFoldersShape(recs, top.cnid, Children(recs, top.cnid), top.prefix, visited);
      NewFoldersOrigin(Children(recs, top.cnid), top.prefix, visited, p);
      var e :| e in Children(recs, top.cnid) && e.isDir && p == Pending(e.cnid, JoinPath(top.prefix, e.name));
      assert e == HfsEntry(e.name, true, e.cnid) && p.cnid in Cnids(found);
      ReachedExtends(recs, visited, visited + Cnids(found), top, e.cnid, e.name);
    }
  }

  /** `p` stands at the end of a way down from the root. */
  ghost predicate OnTrail(recs: seq<Bytes>, p: Pending) {
    exists folders: seq<u32>, names: seq<string> ::
      IsTrail(recs, folders, names) && Last(folders) == p.cnid && JoinAll(names) == p.prefix
  }

  lemma {:induction false} ExpandedOnTrails(recs: seq<Bytes>, stack: seq<Pending>, visited: set<u32>)
    requires forall s :: s in stack ==> Reached(recs, visited, s)
    ensures forall p :: p in Order(recs, stack, visited) ==> OnTrail(recs, p)
    decreases FolderCnids(recs) - visited, |stack|
  {
    hide NewFolders, Children, IsTrail;
    if stack != [] {
      OrderUnfold(recs, stack, visited);
      var top := Last(stack);
      assert top in stack;
      assert OnTrail(recs, top) by {
        var folders: seq<u32>, names: seq<string> :| EndsAt(recs, visited, top, folders, names);
      }
      forall p | p in NextStack(recs, stack, visited) ensures Reached(recs, NextVisited(recs, stack, visited), p) {
        NextStackIsReached(recs, stack, visited, p);
      }
      ExpandedOnTrails(recs, NextStack(recs, stack, visited), NextVisited(recs, stack, visited));
    }
  }

  /** The names with a slash between any two. */
  ghost function Slashed(names: seq<string>): string
    requires names != []
  {
    if |names| == 1 then names[0] else names[0] + "/" + Slashed(names[1..])
  }

  /** Names without the empty ones in front, of which the last name is none. */
  ghost function Rooted(names: seq<string>): (rooted: seq<string>)
    requires names != []
    ensures rooted != []
  {
    if |names| == 1 || names[0] != "" then names else Rooted(names[1..])
  }

  lemma {:induction false} SlashedSnoc(names: seq<string>, name: string)
    requires names != []
    ensures Slashed(names + [name]) == Slashed(names) + "/" + name
  {
    if |names| > 1 {
      SlashedSnoc(names[1..], name);
      assert (names + [name])[1..] == names[1..] + [name];
      AppendChars(names[0], "/", Slashed(names[1..]), "/" + name);
    } else {
      assert (names + [name])[1..] == [name];
    }
  }

  lemma {:induction false} AppendChars(a: string, b: string, c: string, d: string)
    ensures a + b + (c + d) == a + b + c + d
  {
  }

  lemma {:induction false} RootedSnoc(names: seq<string>, name: string)
    requires names != []
    ensures Slashed(Rooted(names)) == "" ==> Rooted(names) == [""] && Rooted(names + [name]) == [name]
    ensures Slashed(Rooted(names)) != "" ==> Rooted(names + [name]) == Rooted(names) + [name]
  {
    var longer := names + [name];
    if names[0] == "" {
      assert longer[1..] == names[1..] + [name];
      if |names| == 1 {
        assert longer[1..] == [name];
      } else {
        RootedSnoc(names[1..], name);
      }
    } else if |names| > 1 {
      assert Slashed(names) == names[0] + "/" + Slashed(names[1..]);
    }
  }

  /** The walk's own joining, name by name, is that of the whole way. */
  lemma {:induction false} JoinAllIsSlashed(names: seq<string>)
    requires names != []
    ensures JoinAll(names) == Slashed(Rooted(names))
  {
    var init, name := DropLast(names), Last(names);
    assert names == init + [name];
    if init != [] {
      JoinAllIsSlashed(init);
      RootedSnoc(init, name);
      if Slashed(Rooted(init)) != "" {
        SlashedSnoc(Rooted(init), name);
      }
    }
  }

  /** What an output entry shows: the entry `e` of the folder that `folders` leads to,
      under the names of the way there, slashes between them. */
  ghost predicate ShowsTrail(
    recs: seq<Bytes>, shown: HfsPathEntry, folders: seq<u32>, names: seq<string>, e: HfsEntry)
  {
    && IsTrail(recs, folders, names) && e in Children(recs, Last(folders))
    && shown == HfsPathEntry(Slashed(Rooted(names + [e.name])), e.isDir, e.cnid)
  }

  lemma {:induction false} OutputIsBlocks(recs: seq<Bytes>, order: seq<Pending>, q: nat)
    returns (p: Pending, e: HfsEntry)
    requires q < |Output(recs, order)|
    ensures p in order && e in Children(recs, p.cnid) && Output(recs, order)[q] == Qualify(p.prefix, e)
  {
    hide Children;
    var entries := Children(recs, order[0].cnid);
    if q < |entries| {
      p, e := order[0], entries[q];
    } else {
      p, e := OutputIsBlocks(recs, order[1..], q - |entries|);
    }
  }

  /** Every path the walk outputs is, from left to right and with slashes between, the
      names along a way through folder entries, from CNID 2 to the entry, that passes no
      folder twice; only empty names in front leave no slash. */
  lemma {:induction false} PathsAreTrails(recs: seq<Bytes>, q: nat)
    requires q < |Output(recs, FromRoot(recs))|
    ensures exists folders: seq<u32>, names: seq<string>, e: HfsEntry ::
      ShowsTrail(recs, Output(recs, FromRoot(recs))[q], folders, names, e)
  {
    hide Children;
    var start: seq<u32>, none: seq<string> := [ROOT_FOLDER_CNID], [];
    assert EndsAt(recs, {ROOT_FOLDER_CNID}, ROOT, start, none);
    ExpandedOnTrails(recs, [ROOT], {ROOT_FOLDER_CNID});
    var p, e := OutputIsBlocks(recs, FromRoot(recs), q);
    var folders: seq<u32>, names: seq<string> :|
      IsTrail(recs, folders, names) && Last(folders) == p.cnid && JoinAll(names) == p.prefix;
    assert DropLast(names + [e.name]) == names;
    JoinAllIsSlashed(names + [e.name]);
    assert ShowsTrail(recs, Output(recs, FromRoot(recs))[q], folders, names, e);
  }

  // ---- the order of the output -----------------------------------------------------

  /** The CNIDs marked when the worklist is empty. */
  ghost function MarkedAfter(recs: seq<Bytes>, stack: seq<Pending>, visited: set<u32>): set<u32>
    decreases FolderCnids(recs) - visited, |stack|
  {
    if stack == [] then visited
    else
      OrderUnfold(recs, stack, visited);
      MarkedAfter(recs, NextStack(recs, stack, visited), NextVisited(recs, stack, visited))
  }

  lemma {:induction false} NothingWaits(recs: seq<Bytes>, stack: seq<Pending>, visited: set<u32>)
    requires stack == []
    ensures Order(recs, stack, visited) == []
  {
  }

  /** The walk goes depth first: what is on top of the stack is finished, with all folders
      first met below it, before anything under it is expanded. */
  lemma {:induction false} DepthFirst(recs: seq<Bytes>, later: seq<Pending>, first: seq<Pending>, visited: set<u32>)
    ensures Order(recs, later + first, visited)
         == Order(recs, first, visited) + Order(recs, later, MarkedAfter(recs, first, visited))
    decreases FolderCnids(recs) - visited, |first|
  {
    hide NewFolders, Children, FolderCnids, Order;
    if first == [] {
      assert later + first == later;
      NothingWaits(recs, first, visited);
    } else {
      var both := later + first;
      assert Last(both) == Last(first) && DropLast(both) == later + DropLast(first);
      OrderUnfold(recs, both, visited);
      OrderUnfold(recs, first, visited);
      var first', visited' := NextStack(recs, first, visited), NextVisited(recs, first, visited);
      assert NextStack(recs, both, visited) == later + first';
      DepthFirst(recs, later, first', visited');
    }
  }

  /** Entry `i` is the first among the entries that names its folder, not yet marked. */
  ghost predicate FirstMet(entries: seq<HfsEntry>, visited: set<u32>, i: nat) {
    && i < |entries| && entries[i].isDir && entries[i].cnid !in visited
    && forall h :: 0 <= h < i ==> !(entries[h].isDir && entries[h].cnid == entries[i].cnid)
  }

  /** The indices of the first-met folders, in the order of the entries. */
  ghost function FirstMetAt(entries: seq<HfsEntry>, visited: set<u32>, n: nat): (at: seq<nat>)
    requires n <= |entries|
    ensures forall k :: 0 <= k < |at| ==> at[k] < n && FirstMet(entries, visited, at[k])
  {
    if n == 0 then []
    else
      var before := FirstMetAt(entries, visited, n - 1);
      if FirstMet(entries, visited, n - 1) then before + [n - 1] else before
  }

  /** They are all of them, each once. */
  lemma {:induction false} FirstMetAtIsExact(entries: seq<HfsEntry>, visited: set<u32>, n: nat)
    requires n <= |entries|
    ensures forall a, b :: 0 <= a < b < |FirstMetAt(entries, visited, n)| ==>
      FirstMetAt(entries, visited, n)[a] < FirstMetAt(entries, visited, n)[b]
    ensures forall i: nat :: i < n && FirstMet(entries, visited, i) ==> i in FirstMetAt(entries, visited, n)
  {
    hide FirstMet;
    if n > 0 {
      FirstMetAtIsExact(entries, visited, n - 1);
    }
  }

  lemma {:induction false} FirstMetOfInit(entries: seq<HfsEntry>, visited: set<u32>, n: nat)
    requires entries != [] && n <= |entries| - 1
    ensures FirstMetAt(entries, visited, n) == FirstMetAt(DropLast(entries), visited, n)
  {
    if n > 0 {
      FirstMetOfInit(entries, visited, n - 1);
      assert FirstMet(entries, visited, n - 1) <==> FirstMet(DropLast(entries), visited, n - 1);
    }
  }

  lemma {:induction false} MetIsMarked(entries: seq<HfsEntry>, prefix: string, visited: set<u32>, c: u32)
    ensures c in visited + Cnids(NewFolders(entries, prefix, visited)) <==>
      c in visited || exists h :: 0 <= h < |entries| && entries[h].isDir && entries[h].cnid == c
  {
    if entries != [] {
      MetIsMarked(DropLast(entries), prefix, visited, c);
      var before, e := NewFolders(DropLast(entries), prefix, visited), Last(entries);
      CnidsSnoc(before, Pending(e.cnid, JoinPath(prefix, e.name)));
      if h :| 0 <= h < |entries| && entries[h].isDir && entries[h].cnid == c {
        assert h < |entries| - 1 ==> DropLast(entries)[h] == entries[h];
      }
    }
  }

  lemma {:induction false} LastIsFirstMet(entries: seq<HfsEntry>, prefix: string, visited: set<u32>)
    requires entries != []
    ensures FirstMet(entries, visited, |entries| - 1) <==>
      Last(entries).isDir && Last(entries).cnid !in visited + Cnids(NewFolders(DropLast(entries), prefix, visited))
  {
    hide NewFolders, Cnids;
    MetIsMarked(DropLast(entries), prefix, visited, Last(entries).cnid);
    if h :| 0 <= h < |entries| - 1 && entries[h].isDir && entries[h].cnid == Last(entries).cnid {
      assert DropLast(entries)[h] == entries[h];
    }
  }

  /** `found` is the folder that entry `e` names, under its own path. */
  ghost predicate Pushes(found: Pending, prefix: string, e: HfsEntry) {
    found == Pending(e.cnid, if prefix == "" then e.name else prefix + "/" + e.name)
  }

  /** One folder's listing pushes exactly the folders first met in it, in its order, each
      under its own path: the last of them is expanded next. */
  lemma {:induction false} PushesFirstMet(entries: seq<HfsEntry>, prefix: string, visited: set<u32>)
    ensures var found, at := NewFolders(entries, prefix, visited), FirstMetAt(entries, visited, |entries|);
      && |found| == |at|
      && forall k :: 0 <= k < |at| ==> Pushes(found[k], prefix, entries[at[k]])
  {
    hide FirstMet, Cnids;
    if entries != [] {
      var init := DropLast(entries);
      PushesFirstMet(init, prefix, visited);
      FirstMetOfInit(entries, visited, |init|);
      LastIsFirstMet(entries, prefix, visited);
    }
  }
}
