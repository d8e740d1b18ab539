/** The auditor's walk over a tree's nodes, and how it compares with the reader's. */
module AuditBtree {
  import opened Wrappers
  import opened Sequences
  import opened ByteOrder
  import opened Chains
  import opened BTree
  import opened Anomalies

  const NODE_LEAF: int := -1
  const NODE_INDEX: int := 0
  const NODE_HEADER: int := 1
  const NODE_MAP: int := 2

  // ---- nodes -----------------------------------------------------------------

  function NodeSlice(volume: Volume, loc: CatalogLoc, n: u32): Option<Bytes> {
    var scaled :- CheckedMulNode(loc, n);
    var off :- CheckedAdd(scaled, loc.catBase);
    var end :- CheckedAdd(off, loc.nodeSize);
    if end > |volume| || loc.nodeSize < 14 then None else Some(volume[off..end])
  }

  function CheckedMulNode(loc: CatalogLoc, n: u32): Option<usize> {
    CheckedMul(n, loc.nodeSize)
  }

  /** The auditor's node arithmetic accepts exactly the nodes the reader enters. */
  lemma {:induction false} NodeSliceIsNode(volume: Volume, loc: CatalogLoc, n: u32)
    requires Walkable(loc)
    ensures NodeSlice(volume, loc, n)
         == if InBounds(volume, loc, n) then Some(NodeBytes(volume, loc, n)) else None
  {
    NodeArithmeticFits(loc, n);
  }

  function I8(b: byte): int {
    if b < 0x80 then b as int else b as int - 0x100
  }

  /** What TN1150 rules out for the descriptor of node number `node`. */
  predicate Violates(nd: Bytes, node: u32, rule: NodeDetail)
    requires 14 <= |nd|
  {
    var fLink, bLink, kind, height := Be32(nd, 0), Be32(nd, 4), I8(nd[8]), nd[9];
    match rule
    case UndocumentedKind => kind != NODE_LEAF && kind != NODE_INDEX && kind != NODE_HEADER && kind != NODE_MAP
    case LeafAtHeightZero => kind == NODE_LEAF && height == 0
    case HeaderKindElsewhere => kind == NODE_HEADER && node != 0
    case LinksToItself => (fLink != 0 && fLink == node) || (bLink != 0 && bLink == node)
    case ChainLoopsBack => false
  }

  const DESCRIPTOR_RULES: seq<NodeDetail> := [UndocumentedKind, LeafAtHeightZero, HeaderKindElsewhere, LinksToItself]

  function ViolationOf(nd: Bytes, node: u32, tree: Tree): NodeDetail -> Option<Anomaly>
    requires 14 <= |nd|
  {
    (rule: NodeDetail) => if Violates(nd, node, rule) then Some(BtreeNodeInvalid(tree, node, rule)) else None
  }

  /** The findings about one node's descriptor. */
  function NodeFindings(volume: Volume, loc: CatalogLoc, node: u32, tree: Tree): seq<Anomaly>
    requires Walkable(loc)
  {
    if InBounds(volume, loc, node)
    then FilterMap(ViolationOf(NodeBytes(volume, loc, node), node, tree), DESCRIPTOR_RULES)
    else []
  }

  lemma {:induction false} FilterMapFour<A, B>(f: A -> Option<B>, a: A, b: A, c: A, d: A)
    ensures FilterMap(f, [a, b, c, d]) == Opt(f(a)) + Opt(f(b)) + Opt(f(c)) + Opt(f(d))
  {
    var xs := [a, b, c, d];
    FilterMapStep(f, xs, 0);
    FilterMapStep(f, xs, 1);
    FilterMapStep(f, xs, 2);
    FilterMapStep(f, xs, 3);
    assert xs[..4] == xs;
  }

  method CheckNode(volume: Volume, loc: CatalogLoc, node: u32, tree: Tree) returns (out: seq<Anomaly>)
    requires Walkable(loc)
    ensures out == NodeFindings(volume, loc, node, tree)
  {
    NodeSliceIsNode(volume, loc, node);
    var slice := NodeSlice(volume, loc, node);
    if slice.None? {
      return [];
    }
    out := CheckDescriptor(slice.value, node, tree);
  }

  method CheckDescriptor(nd: Bytes, node: u32, tree: Tree) returns (out: seq<Anomaly>)
    requires 14 <= |nd|
    ensures out == FilterMap(ViolationOf(nd, node, tree), DESCRIPTOR_RULES)
  {
    FilterMapFour(ViolationOf(nd, node, tree), UndocumentedKind, LeafAtHeightZero, HeaderKindElsewhere, LinksToItself);
    out := [];
    var fLink := Be32(nd, 0);
    var bLink := Be32(nd, 4);
    var kind := I8(nd[8]);
    var height := nd[9];
    if !(kind == NODE_LEAF || kind == NODE_INDEX || kind == NODE_HEADER || kind == NODE_MAP) {
      out := out + [BtreeNodeInvalid(tree, node, UndocumentedKind)];
    }
    if kind == NODE_LEAF && height == 0 {
      out := out + [BtreeNodeInvalid(tree, node, LeafAtHeightZero)];
    }
    if kind == NODE_HEADER && node != 0 {
      out := out + [BtreeNodeInvalid(tree, node, HeaderKindElsewhere)];
    }
    if (fLink != 0 && fLink == node) || (bLink != 0 && bLink == node) {
      out := out + [BtreeNodeInvalid(tree, node, LinksToItself)];
    }
  }

  // ---- the chain ---------------------------------------------------------------

  function FindingsAt(volume: Volume, loc: CatalogLoc, tree: Tree): u32 -> seq<Anomaly>
    requires Walkable(loc)
  {
    (node: u32) => NodeFindings(volume, loc, node, tree)
  }

  function LoopFinding(next: Successor, start: u32, tree: Tree, d: nat, limit: nat): seq<Anomaly> {
    var node := Cursor(next, start, d);
    if d < limit && next(node).Some? then [BtreeNodeInvalid(tree, node, ChainLoopsBack)] else []
  }

  /** Every fresh node of the chain, then the loop if there is one. */
  function ChainFindings(next: Successor, f: u32 -> seq<Anomaly>, start: u32, tree: Tree, limit: nat): seq<Anomaly> {
    var d := FreshSteps(next, start, limit);
    Collected(next, f, start, d) + LoopFinding(next, start, tree, d, limit)
  }

  /** Node 0, the header node, and then the chain. */
  function TreeFindings(volume: Volume, loc: CatalogLoc, tree: Tree): seq<Anomaly>
    requires Walkable(loc)
  {
    NodeFindings(volume, loc, 0, tree)
    + ChainFindings(Next(volume, loc), FindingsAt(volume, loc, tree), loc.firstLeaf, tree, MAX_LEAF_NODES)
  }

  method AuditBtreeNodes(volume: Volume, loc: CatalogLoc, tree: Tree) returns (out: seq<Anomaly>)
    requires Walkable(loc)
    ensures out == TreeFindings(volume, loc, tree)
  {
    var header := CheckNode(volume, loc, 0, tree);
    var chain := AuditChain(volume, loc, tree);
    out := header + chain;
  }

  /** One step: check the node and follow its forward link, or the early exit. */
  method AuditNode(volume: Volume, loc: CatalogLoc, node: u32, tree: Tree) returns (r: Option<(seq<Anomaly>, u32)>)
    requires Walkable(loc) && node != 0
    ensures r.Some? <==> Next(volume, loc)(node).Some?
    ensures r.Some? ==> FindingsAt(volume, loc, tree)(node) == r.value.0 && Next(volume, loc)(node) == Some(r.value.1)
  {
    NodeSliceIsNode(volume, loc, node);
    var nd := NodeSlice(volume, loc, node);
    if nd.None? {
      return None;
    }
    var found := CheckNode(volume, loc, node, tree);
    return Some((found, Be32(nd.value, 0)));
  }

  /** The state of the chain loop after `k` fresh steps: the node it holds and its findings. */
  ghost predicate Audits(volume: Volume, loc: CatalogLoc, tree: Tree, k: nat, node: u32, out: seq<Anomaly>)
    requires Walkable(loc)
  {
    && k <= MAX_LEAF_NODES && node == Cursor(Next(volume, loc), loc.firstLeaf, k)
    && FreshSteps(Next(volume, loc), loc.firstLeaf, k) == k
    && out == Collected(Next(volume, loc), FindingsAt(volume, loc, tree), loc.firstLeaf, k)
  }

  ghost predicate HasSeen(volume: Volume, loc: CatalogLoc, k: nat, seen: set<u32>)
    requires Walkable(loc)
  {
    forall n :: n in seen <==> n in Entered(Next(volume, loc), loc.firstLeaf, k)
  }

  lemma {:induction false} AuditsOneMore(
    volume: Volume, loc: CatalogLoc, tree: Tree, k: nat, node: u32, out: seq<Anomaly>, seen: set<u32>)
    requires Walkable(loc) && k < MAX_LEAF_NODES
    requires Audits(volume, loc, tree, k, node, out) && HasSeen(volume, loc, k, seen)
    requires node !in seen && Next(volume, loc)(node).Some?
    ensures var out' := out + FindingsAt(volume, loc, tree)(node);
      && Audits(volume, loc, tree, k + 1, Next(volume, loc)(node).value, out')
      && HasSeen(volume, loc, k + 1, seen + {node})
  {
    hide Next, FindingsAt;
    FreshStep(Next(volume, loc), FindingsAt(volume, loc, tree), loc.firstLeaf, k, seen);
  }

  /** The loop ends at a node already seen, at one it cannot enter, or with its budget. */
  lemma {:induction false} AuditEnds(
    volume: Volume, loc: CatalogLoc, tree: Tree, k: nat, node: u32, out: seq<Anomaly>, looped: bool)
    requires Walkable(loc) && Audits(volume, loc, tree, k, node, out)
    requires looped ==> k < MAX_LEAF_NODES && node in Entered(Next(volume, loc), loc.firstLeaf, k)
    requires !looped && k < MAX_LEAF_NODES ==> Next(volume, loc)(node).None?
    ensures out + If(looped, BtreeNodeInvalid(tree, node, ChainLoopsBack))
         == ChainFindings(Next(volume, loc), FindingsAt(volume, loc, tree), loc.firstLeaf, tree, MAX_LEAF_NODES)
  {
    hide Next, FindingsAt;
    var next, f, start := Next(volume, loc), FindingsAt(volume, loc, tree), loc.firstLeaf;
    CollectedMember(next, f, start, k, BtreeNodeInvalid(tree, node, ChainLoopsBack));
    if k < MAX_LEAF_NODES {
      FreshStops(next, start, k, MAX_LEAF_NODES);
    }
  }

  /** The loop over the leaf chain, with its set of nodes already seen. */
  method AuditChain(volume: Volume, loc: CatalogLoc, tree: Tree) returns (out: seq<Anomaly>)
    requires Walkable(loc)
    ensures out
         == ChainFindings(Next(volume, loc), FindingsAt(volume, loc, tree), loc.firstLeaf, tree, MAX_LEAF_NODES)
  {
    hide NodeFindings, InBounds, FreshSteps, Collected, Entered, ChainFindings;
    out := [];
    var node := loc.firstLeaf;
    var walked: u32 := 0;
    var seen: set<u32> := {};
    ChainStart(volume, loc, tree);
    while node != 0 && walked < MAX_LEAF_NODES
      invariant walked <= MAX_LEAF_NODES
      invariant Audits(volume, loc, tree, walked, node, out) && HasSeen(volume, loc, walked, seen)
      decreases MAX_LEAF_NODES - walked
    {
      if node in seen {
        AuditEnds(volume, loc, tree, walked, node, out, true);
        return out + [BtreeNodeInvalid(tree, node, ChainLoopsBack)];
      }
      ghost var before := seen;
      seen := seen + {node};
      var audit := AuditNode(volume, loc, node, tree);
      if audit.None? {
        break;
      }
      AuditsOneMore(volume, loc, tree, walked, node, out, before);
      out := out + audit.value.0;
      node := audit.value.1;
      walked := walked + 1;
    }
    AuditEnds(volume, loc, tree, walked, node, out, false);
    assert out + [] == out;
  }

  lemma {:induction false} ChainStart(volume: Volume, loc: CatalogLoc, tree: Tree)
    requires Walkable(loc)
    ensures Audits(volume, loc, tree, 0, loc.firstLeaf, []) && HasSeen(volume, loc, 0, {})
  {
  }

  // ---- the auditor and the reader see the same chain ------------------------------

  /** A node's findings name that node and a rule it violates, and leave none out. */
  lemma {:induction false} NodeFindingsExact(
    volume: Volume, loc: CatalogLoc, node: u32, tree: Tree, n: u32, rule: NodeDetail)
    requires Walkable(loc)
    ensures BtreeNodeInvalid(tree, n, rule) in NodeFindings(volume, loc, node, tree)
       <==> n == node && InBounds(volume, loc, n) && Violates(NodeBytes(volume, loc, n), n, rule)
  {
    hide Violates;
    if InBounds(volume, loc, node) {
      var f := ViolationOf(NodeBytes(volume, loc, node), node, tree);
      FilterMapMember(f, DESCRIPTOR_RULES, BtreeNodeInvalid(tree, n, rule));
      RulesAreAll(NodeBytes(volume, loc, node), node, rule);
    }
  }

  lemma {:induction false} RulesAreAll(nd: Bytes, node: u32, rule: NodeDetail)
    requires 14 <= |nd|
    ensures Violates(nd, node, rule) ==> exists i :: 0 <= i < |DESCRIPTOR_RULES| && DESCRIPTOR_RULES[i] == rule
  {
    assert DESCRIPTOR_RULES[0] == UndocumentedKind && DESCRIPTOR_RULES[1] == LeafAtHeightZero;
    assert DESCRIPTOR_RULES[2] == HeaderKindElsewhere && DESCRIPTOR_RULES[3] == LinksToItself;
  }

  function RuleRank(rule: NodeDetail): nat {
    match rule
    case UndocumentedKind => 0
    case LeafAtHeightZero => 1
    case HeaderKindElsewhere => 2
    case LinksToItself => 3
    case ChainLoopsBack => 4
  }

  /** The rules a node breaks are reported in one order, each once. */
  lemma {:induction false} RulesInOrder(volume: Volume, loc: CatalogLoc, node: u32, tree: Tree, i: nat, j: nat)
    requires Walkable(loc) && i < j < |NodeFindings(volume, loc, node, tree)|
    ensures var x, y := NodeFindings(volume, loc, node, tree)[i], NodeFindings(volume, loc, node, tree)[j];
      x.BtreeNodeInvalid? && y.BtreeNodeInvalid? && RuleRank(x.detail) < RuleRank(y.detail)
  {
    hide Violates;
    var rank := (a: Anomaly) => if a.BtreeNodeInvalid? then RuleRank(a.detail) else 4;
    var f := ViolationOf(NodeBytes(volume, loc, node), node, tree);
    FilterMapRanked(f, rank, DESCRIPTOR_RULES);
    FilterMapMember(f, DESCRIPTOR_RULES, NodeFindings(volume, loc, node, tree)[i]);
    FilterMapMember(f, DESCRIPTOR_RULES, NodeFindings(volume, loc, node, tree)[j]);
  }

  lemma {:induction false} FilterMapRanked<A, B>(f: A -> Option<B>, rank: B -> nat, xs: seq<A>)
    requires forall k :: 0 <= k < |xs| && f(xs[k]).Some? ==> rank(f(xs[k]).value) == k
    ensures forall y :: y in FilterMap(f, xs) ==> rank(y) < |xs|
    ensures forall i, j :: 0 <= i < j < |FilterMap(f, xs)| ==> rank(FilterMap(f, xs)[i]) < rank(FilterMap(f, xs)[j])
  {
    if xs != [] {
      FilterMapRanked(f, rank, DropLast(xs));
      assert f(xs[|xs| - 1]) == f(Last(xs));
    }
  }

  /** What BtreeNodeInvalid says of a tree, apart from loops: a descriptor rule is
      reported for a node exactly when it is node 0 or one the reader visits, lies in the
      volume, and violates that rule. */
  lemma {:induction false} TreeFindingsExact(volume: Volume, loc: CatalogLoc, tree: Tree, n: u32, rule: NodeDetail)
    requires Walkable(loc) && rule != ChainLoopsBack
    ensures BtreeNodeInvalid(tree, n, rule) in TreeFindings(volume, loc, tree)
       <==> (n == 0 || n in Visits(volume, loc)) && InBounds(volume, loc, n)
            && Violates(NodeBytes(volume, loc, n), n, rule)
  {
    hide Violates, NodeFindings, InBounds, Next, Loops;
    var next, f, start := Next(volume, loc), FindingsAt(volume, loc, tree), loc.firstLeaf;
    var d, a := FreshSteps(next, start, MAX_LEAF_NODES), BtreeNodeInvalid(tree, n, rule);
    NodeFindingsExact(volume, loc, 0, tree, n, rule);
    NodeFindingsExact(volume, loc, n, tree, n, rule);
    CollectedMember(next, f, start, d, a);
    if m: u32 :| m in Entered(next, start, d) && a in f(m) {
      NodeFindingsExact(volume, loc, m, tree, n, rule);
    }
    AuditorAgreesWithReader(volume, loc, tree);
  }

  ghost predicate IsLoop(a: Anomaly) {
    a.BtreeNodeInvalid? && a.detail == ChainLoopsBack
  }

  ghost function LoopOf(): Anomaly -> Option<Anomaly> {
    (a: Anomaly) => if IsLoop(a) then Some(a) else None
  }

  /** The findings that report a looping chain. */
  ghost function Loops(found: seq<Anomaly>): seq<Anomaly> {
    FilterMap(LoopOf(), found)
  }

  lemma {:induction false} NodeFindingsHaveNoLoop(volume: Volume, loc: CatalogLoc, node: u32, tree: Tree)
    requires Walkable(loc)
    ensures forall a :: a in NodeFindings(volume, loc, node, tree) ==> !IsLoop(a)
  {
    if InBounds(volume, loc, node) {
      var f := ViolationOf(NodeBytes(volume, loc, node), node, tree);
      forall a | a in NodeFindings(volume, loc, node, tree) ensures !IsLoop(a) {
        FilterMapMember(f, DESCRIPTOR_RULES, a);
      }
    }
  }

  lemma {:induction false} TreeLoops(volume: Volume, loc: CatalogLoc, tree: Tree)
    requires Walkable(loc)
    ensures var next := Next(volume, loc);
      Loops(TreeFindings(volume, loc, tree))
      == LoopFinding(next, loc.firstLeaf, tree, FreshSteps(next, loc.firstLeaf, MAX_LEAF_NODES), MAX_LEAF_NODES)
  {
    var next, f, start := Next(volume, loc), FindingsAt(volume, loc, tree), loc.firstLeaf;
    var d := FreshSteps(next, start, MAX_LEAF_NODES);
    var a, b := NodeFindings(volume, loc, 0, tree), Collected(next, f, start, d);
    var c := LoopFinding(next, start, tree, d, MAX_LEAF_NODES);
    NodeFindingsHaveNoLoop(volume, loc, 0, tree);
    forall x | x in b ensures !IsLoop(x) {
      CollectedMember(next, f, start, d, x);
      var n: u32 :| n in Entered(next, start, d) && x in f(n);
      NodeFindingsHaveNoLoop(volume, loc, n, tree);
    }
    FilterMapNone(LoopOf(), a);
    FilterMapNone(LoopOf(), b);
    FilterMapAppend(LoopOf(), a, b + c);
    FilterMapAppend(LoopOf(), b, c);
    assert c != [] ==> DropLast(c) == [];
  }

  /** The nodes whose descriptors the auditor checks after node 0. */
  ghost function Audited(volume: Volume, loc: CatalogLoc): seq<u32>
    requires Walkable(loc)
  {
    Entered(Next(volume, loc), loc.firstLeaf, FreshSteps(Next(volume, loc), loc.firstLeaf, MAX_LEAF_NODES))
  }

  /** On every located tree the auditor checks exactly the nodes the reader visits. It
      reports a loop, once, exactly when the reader visits some node twice; the reader
      then makes exactly MAX_LEAF_NODES visits. Without the finding no node is
      delivered twice. */
  lemma {:induction false} AuditorAgreesWithReader(volume: Volume, loc: CatalogLoc, tree: Tree)
    requires Walkable(loc)
    ensures forall n :: n in Audited(volume, loc) <==> n in Visits(volume, loc)
    ensures |Loops(TreeFindings(volume, loc, tree))| <= 1
    ensures Loops(TreeFindings(volume, loc, tree)) != [] <==> !Distinct(Visits(volume, loc))
    ensures Loops(TreeFindings(volume, loc, tree)) != [] ==> |Visits(volume, loc)| == 65536
  {
    TreeLoops(volume, loc, tree);
    FreshCoversEntered(Next(volume, loc), loc.firstLeaf, MAX_LEAF_NODES);
  }

  /** The loop finding names the first node the reader comes back to. */
  lemma {:induction false} LoopFindingExact(volume: Volume, loc: CatalogLoc, tree: Tree, n: u32)
    requires Walkable(loc)
    ensures BtreeNodeInvalid(tree, n, ChainLoopsBack) in TreeFindings(volume, loc, tree)
       <==> FirstRepeat(Visits(volume, loc), n)
  {
    hide TreeFindings, Next;
    var a, found := BtreeNodeInvalid(tree, n, ChainLoopsBack), TreeFindings(volume, loc, tree);
    TreeLoops(volume, loc, tree);
    FilterMapMember(LoopOf(), found, a);
    assert a in Loops(found) <==> a in found by {
      if i :| 0 <= i < |found| && found[i] == a {
        assert LoopOf()(found[i]) == Some(a);
      }
    }
    FirstRepeatIsFresh(Next(volume, loc), loc.firstLeaf, MAX_LEAF_NODES, n);
  }

  /** The report on a tree follows the walk: node 0 first, then the nodes in the order of
      the reader's visits, and a loop last. */
  lemma {:induction false} FindingsFollowTheWalk(volume: Volume, loc: CatalogLoc, tree: Tree)
    returns (m: nat, pos: seq<nat>)
    requires Walkable(loc)
    ensures var found := TreeFindings(volume, loc, tree);
      && m <= |found| && found[m..] == Loops(found)
      && InOrderOf(FindingsAt(volume, loc, tree), [0] + Visits(volume, loc), found[..m], pos)
  {
    hide NodeFindings, Entered, Collected, InOrderOf, Next, Loops, FreshSteps;
    var next, f, start := Next(volume, loc), FindingsAt(volume, loc, tree), loc.firstLeaf;
    var d := FreshSteps(next, start, MAX_LEAF_NODES);
    var header, chain := NodeFindings(volume, loc, 0, tree), Collected(next, f, start, d);
    TreeLoops(volume, loc, tree);
    m := |header + chain|;
    var first := NothingInOrder(f);
    first := InOrderSnoc(f, [], [], first, 0);
    var later := CollectedInOrder(next, f, start, d);
    pos := InOrderAppend(f, [0], header, first, Entered(next, start, d), chain, later);
    FreshIsPrefix(next, start, MAX_LEAF_NODES);
    assert ([0] + Entered(next, start, d)) <= [0] + Visits(volume, loc);
    InOrderLonger(f, [0] + Entered(next, start, d), [0] + Visits(volume, loc), header + chain, pos);
    assert TreeFindings(volume, loc, tree)[..m] == header + chain;
    assert [] + [0 as u32] == [0] && [] + f(0) == header;
  }

  lemma {:induction false} InOrderAppend<T>(
    f: u32 -> seq<T>, a: seq<u32>, x: seq<T>, p: seq<nat>, b: seq<u32>, y: seq<T>, q: seq<nat>) returns (pos: seq<nat>)
    requires InOrderOf(f, a, x, p) && InOrderOf(f, b, y, q)
    ensures InOrderOf(f, a + b, x + y, pos)
  {
    var shifted: seq<nat> := seq(|q|, i requires 0 <= i < |q| => |a| + q[i]);
    pos := p + shifted;
  }

  lemma {:induction false} InOrderLonger<T>(f: u32 -> seq<T>, a: seq<u32>, b: seq<u32>, x: seq<T>, p: seq<nat>)
    requires InOrderOf(f, a, x, p) && a <= b
    ensures InOrderOf(f, b, x, p)
  {
  }

  lemma {:induction false} FreshIsPrefix(next: Successor, start: u32, k: nat)
    ensures Entered(next, start, FreshSteps(next, start, k)) <= Entered(next, start, k)
  {
    EnteredLonger(next, start, FreshSteps(next, start, k), k);
  }

  lemma {:induction false} EnteredLonger(next: Successor, start: u32, d: nat, k: nat)
    requires d <= k
    ensures Entered(next, start, d) <= Entered(next, start, k)
  {
    if d < k {
      EnteredLonger(next, start, d, k - 1);
    }
  }
}
