/** Walking a chain of numbered nodes. `next(n)` is the node after `n`, or `None` when a
    walk cannot enter `n`; the chain may end, leave the volume, or loop. */
module Chains {
  import opened Wrappers
  import opened Sequences
  import opened ByteOrder

  type Successor = u32 -> Option<u32>

  /** The node number a walk holds after `k` steps; a node it cannot enter stops it. */
  function Cursor(next: Successor, start: u32, k: nat): u32
    decreases k, start
  {
    if k == 0 then start
    else
      var node := Cursor(next, start, k - 1);
      match next(node) case Some(n) => n case None => node
  }

  /** The nodes entered in the first `k` steps. */
  function Entered(next: Successor, start: u32, k: nat): (nodes: seq<u32>)
    ensures |nodes| <= k
    decreases k, start
  {
    if k == 0 then []
    else
      var node := Cursor(next, start, k - 1);
      Entered(next, start, k - 1) + if next(node).Some? then [node] else []
  }

  /** What `f` yields for the nodes entered in the first `k` steps, in order. */
  function Collected<T>(next: Successor, f: u32 -> seq<T>, start: u32, k: nat): seq<T>
    decreases k, start
  {
    if k == 0 then []
    else
      var node := Cursor(next, start, k - 1);
      Collected(next, f, start, k - 1) + if next(node).Some? then f(node) else []
  }

  /** One step that enters its node. */
  lemma {:induction false} EnterStep<T>(next: Successor, f: u32 -> seq<T>, start: u32, k: nat)
    requires next(Cursor(next, start, k)).Some?
    ensures Cursor(next, start, k + 1) == next(Cursor(next, start, k)).value
    ensures Entered(next, start, k + 1) == Entered(next, start, k) + [Cursor(next, start, k)]
    ensures Collected(next, f, start, k + 1) == Collected(next, f, start, k) + f(Cursor(next, start, k))
  {
  }

  /** A walk that stops stays stopped. */
  lemma {:induction false} StoppedStays(next: Successor, start: u32, k: nat, m: nat)
    requires k <= m && next(Cursor(next, start, k)).None?
    ensures Cursor(next, start, m) == Cursor(next, start, k)
    ensures Entered(next, start, m) == Entered(next, start, k)
  {
    if k < m {
      StoppedStays(next, start, k, m - 1);
    }
  }

  lemma {:induction false} CollectedStays<T>(next: Successor, f: u32 -> seq<T>, start: u32, k: nat, m: nat)
    requires k <= m && next(Cursor(next, start, k)).None?
    ensures Collected(next, f, start, m) == Collected(next, f, start, k)
  {
    if k < m {
      StoppedStays(next, start, k, m - 1);
      CollectedStays(next, f, start, k, m - 1);
    }
  }

  /** The entered nodes are the cursor's first values; the walk stops where it cannot enter. */
  lemma {:induction false} EnteredShape(next: Successor, start: u32, k: nat)
    ensures var nodes := Entered(next, start, k);
      && (forall i :: 0 <= i < |nodes| ==> nodes[i] == Cursor(next, start, i) && next(nodes[i]).Some?)
      && (|nodes| < k ==> next(Cursor(next, start, |nodes|)).None?)
  {
    if k > 0 {
      EnteredShape(next, start, k - 1);
      var before := Entered(next, start, k - 1);
      var node := Cursor(next, start, k - 1);
      if |before| < k - 1 {
        StoppedStays(next, start, |before|, k - 1);
        assert Entered(next, start, k) == before;
      } else if next(node).Some? {
        assert Entered(next, start, k) == before + [node];
      } else {
        assert Entered(next, start, k) == before;
      }
    }
  }

  /** The chain is a function of the node: equal nodes have equal futures. */
  lemma {:induction false} SameNodeSameFuture(next: Successor, start: u32, i: nat, j: nat, d: nat)
    requires Cursor(next, start, i) == Cursor(next, start, j)
    ensures Cursor(next, start, i + d) == Cursor(next, start, j + d)
  {
    if d > 0 {
      SameNodeSameFuture(next, start, i, j, d - 1);
    }
  }

  /** A walk that meets a node twice can only be ended by its budget. */
  lemma {:induction false} RevisitNeverStops(next: Successor, start: u32, k: nat, i: nat, j: nat)
    requires i < j < |Entered(next, start, k)|
    requires Entered(next, start, k)[i] == Entered(next, start, k)[j]
    ensures |Entered(next, start, k)| == k
  {
    EnteredShape(next, start, k);
    var n := |Entered(next, start, k)|;
    if n < k {
      assert next(Cursor(next, start, i + (n - j))).Some? by {
        assert Cursor(next, start, i + (n - j)) == Entered(next, start, k)[i + (n - j)];
      }
      SameNodeSameFuture(next, start, i, j, n - j);
    }
  }

  /** What a bounded walk is, without saying how it is computed: it begins at the start,
      follows the successor, enters only nodes that can be entered, and stops only at
      the first node that cannot be, or at the limit. */
  ghost predicate IsWalk(next: Successor, start: u32, limit: nat, nodes: seq<u32>) {
    && |nodes| <= limit
    && (nodes != [] ==> nodes[0] == start)
    && (forall i :: 0 <= i < |nodes| ==> next(nodes[i]).Some?)
    && (forall i, j :: 0 <= i < |nodes| && j == i + 1 && j < |nodes| ==> next(nodes[i]) == Some(nodes[j]))
    && (|nodes| < limit ==> next(if nodes == [] then start else next(Last(nodes)).value).None?)
  }

  lemma {:induction false} EnteredIsWalk(next: Successor, start: u32, k: nat)
    ensures IsWalk(next, start, k, Entered(next, start, k))
  {
    EnteredShape(next, start, k);
    var nodes := Entered(next, start, k);
    forall i, j | 0 <= i < |nodes| && j == i + 1 && j < |nodes| ensures next(nodes[i]) == Some(nodes[j]) {
      assert nodes[j] == Cursor(next, start, i + 1);
    }
    if nodes != [] {
      assert Cursor(next, start, |nodes| - 1 + 1) == next(Last(nodes)).value;
    }
  }

  lemma {:induction false} WalkFollowsCursor(next: Successor, start: u32, limit: nat, nodes: seq<u32>, i: nat)
    requires IsWalk(next, start, limit, nodes) && i < |nodes|
    ensures nodes[i] == Cursor(next, start, i)
  {
    if i > 0 {
      WalkFollowsCursor(next, start, limit, nodes, i - 1);
    }
  }

  /** There is one such walk, and it is the one computed. */
  lemma {:induction false} WalkIsUnique(next: Successor, start: u32, limit: nat, nodes: seq<u32>)
    ensures IsWalk(next, start, limit, nodes) <==> nodes == Entered(next, start, limit)
  {
    EnteredIsWalk(next, start, limit);
    if IsWalk(next, start, limit, nodes) {
      EnteredShape(next, start, limit);
      forall i | 0 <= i < |nodes| ensures nodes[i] == Cursor(next, start, i) {
        WalkFollowsCursor(next, start, limit, nodes, i);
      }
      var n, m := |nodes|, |Entered(next, start, limit)|;
      assert n > 0 ==> Cursor(next, start, n - 1 + 1) == next(Last(nodes)).value;
      assert n < limit ==> next(Cursor(next, start, n)).None?;
      assert m < limit ==> next(Cursor(next, start, m)).None?;
    }
  }

  // ---- sizes -----------------------------------------------------------------

  /** A value is collected exactly when some entered node yields it. */
  lemma {:induction false} CollectedMember<T>(next: Successor, f: u32 -> seq<T>, start: u32, k: nat, t: T)
    ensures t in Collected(next, f, start, k) <==> exists n: u32 :: n in Entered(next, start, k) && t in f(n)
    ensures forall n: u32 :: n in Entered(next, start, k) ==> next(n).Some?
  {
    if k > 0 {
      CollectedMember(next, f, start, k - 1, t);
      var node := Cursor(next, start, k - 1);
      if next(node).Some? {
        EnterStep(next, f, start, k - 1);
      } else {
        StoppedStays(next, start, k - 1, k);
        CollectedStays(next, f, start, k - 1, k);
      }
    }
  }

  lemma {:induction false} CollectedBound<T>(next: Successor, f: u32 -> seq<T>, start: u32, k: nat, c: nat)
    requires forall n: u32 :: next(n).Some? ==> |f(n)| <= c
    ensures |Collected(next, f, start, k)| <= k * c
  {
    if k > 0 {
      CollectedBound(next, f, start, k - 1, c);
      assert k * c == (k - 1) * c + c;
    }
  }

  // ---- loops -----------------------------------------------------------------

  /** The steps among the first `k` before a node comes up again or cannot be entered. */
  function FreshSteps(next: Successor, start: u32, k: nat): (d: nat)
    ensures d <= k
    decreases k, start
  {
    if k == 0 then 0
    else
      var d := FreshSteps(next, start, k - 1);
      var node := Cursor(next, start, k - 1);
      if d == k - 1 && next(node).Some? && node !in Entered(next, start, k - 1) then k else d
  }

  /** `d` fresh steps, and no more: what stands next is stuck or already seen. */
  ghost predicate FreshUpTo(next: Successor, start: u32, d: nat, k: nat) {
    && |Entered(next, start, d)| == d && Distinct(Entered(next, start, d))
    && (d < k ==> next(Cursor(next, start, d)).None? || Cursor(next, start, d) in Entered(next, start, d))
  }

  lemma {:induction false} DistinctSnoc<T>(xs: seq<T>, x: T)
    requires Distinct(xs) && x !in xs
    ensures Distinct(xs + [x])
  {
  }

  lemma {:induction false} FreshOneMore(next: Successor, start: u32, d: nat)
    requires FreshUpTo(next, start, d, d)
    requires next(Cursor(next, start, d)).Some? && Cursor(next, start, d) !in Entered(next, start, d)
    ensures FreshUpTo(next, start, d + 1, d + 1)
  {
    DistinctSnoc(Entered(next, start, d), Cursor(next, start, d));
    assert Entered(next, start, d + 1) == Entered(next, start, d) + [Cursor(next, start, d)];
  }

  lemma {:induction false} FreshShape(next: Successor, start: u32, k: nat)
    ensures FreshUpTo(next, start, FreshSteps(next, start, k), k)
  {
    if k > 0 {
      FreshShape(next, start, k - 1);
      if FreshSteps(next, start, k) == k {
        FreshOneMore(next, start, k - 1);
      }
    }
  }

  /** One fresh step of a walk that looks: what it has seen, and what it has collected. */
  lemma {:induction false} FreshStep<T>(next: Successor, f: u32 -> seq<T>, start: u32, k: nat, seen: set<u32>)
    requires FreshSteps(next, start, k) == k && forall n :: n in seen <==> n in Entered(next, start, k)
    requires Cursor(next, start, k) !in seen && next(Cursor(next, start, k)).Some?
    ensures var node := Cursor(next, start, k);
      && FreshSteps(next, start, k + 1) == k + 1
      && Cursor(next, start, k + 1) == next(node).value
      && Collected(next, f, start, k + 1) == Collected(next, f, start, k) + f(node)
      && forall n :: n in seen + {node} <==> n in Entered(next, start, k + 1)
  {
    EnterStep(next, f, start, k);
  }

  /** Once no step is fresh, the remaining steps change nothing. */
  lemma {:induction false} FreshStops(next: Successor, start: u32, k: nat, m: nat)
    requires k < m && FreshSteps(next, start, k) == k
    requires next(Cursor(next, start, k)).None? || Cursor(next, start, k) in Entered(next, start, k)
    ensures FreshSteps(next, start, m) == k
  {
    if k < m - 1 {
      FreshStops(next, start, k, m - 1);
    }
  }

  /** From the first repeated node on, a walk only sees nodes it has seen. */
  lemma {:induction false} NothingNewAfterLoop(next: Successor, start: u32, d: nat, k: nat)
    requires d <= k && |Entered(next, start, d)| == d
    requires Cursor(next, start, d) in Entered(next, start, d)
    ensures Cursor(next, start, k) in Entered(next, start, d)
  {
    EnteredShape(next, start, d);
    if d < k {
      NothingNewAfterLoop(next, start, d, k - 1);
      var j :| 0 <= j < d && Entered(next, start, d)[j] == Cursor(next, start, k - 1);
      SameNodeSameFuture(next, start, j, k - 1, 1);
      assert j + 1 < d ==> Entered(next, start, d)[j + 1] == Cursor(next, start, j + 1);
    }
  }

  lemma {:induction false} LoopFillsBudget(next: Successor, start: u32, d: nat, k: nat)
    requires d < k && |Entered(next, start, d)| == d
    requires Cursor(next, start, d) in Entered(next, start, d)
    ensures |Entered(next, start, k)| == k
    ensures !Distinct(Entered(next, start, k))
  {
    EnteredShape(next, start, d);
    EnteredShape(next, start, k);
    var n := |Entered(next, start, k)|;
    if d <= n < k {
      NothingNewAfterLoop(next, start, d, n);
    }
    var i :| 0 <= i < d && Entered(next, start, d)[i] == Cursor(next, start, d);
    assert Entered(next, start, k)[i] == Entered(next, start, k)[d];
  }

  lemma {:induction false} NothingNew(next: Successor, start: u32, d: nat, k: nat, n: u32)
    requires d < k && |Entered(next, start, d)| == d
    requires Cursor(next, start, d) in Entered(next, start, d)
    requires n in Entered(next, start, k)
    ensures n in Entered(next, start, d)
  {
    EnteredShape(next, start, d);
    EnteredShape(next, start, k);
    var j :| 0 <= j < |Entered(next, start, k)| && Entered(next, start, k)[j] == n;
    if d <= j {
      NothingNewAfterLoop(next, start, d, j);
    } else {
      assert Entered(next, start, d)[j] == Cursor(next, start, j);
    }
  }

  lemma {:induction false} EnteredGrows(next: Successor, start: u32, d: nat, k: nat, n: u32)
    requires d <= k && n in Entered(next, start, d)
    ensures n in Entered(next, start, k)
  {
    if d < k {
      EnteredGrows(next, start, d, k - 1, n);
    }
  }

  /** A walk that stops at the first node it has seen covers the nodes of the walk that
      does not look; the latter repeats a node exactly when the former finds one, and
      then runs through its whole budget. */
  lemma {:induction false} FreshCoversEntered(next: Successor, start: u32, k: nat)
    ensures var d := FreshSteps(next, start, k);
      && (forall n :: n in Entered(next, start, d) <==> n in Entered(next, start, k))
      && (d < k && next(Cursor(next, start, d)).Some? ==>
          |Entered(next, start, k)| == k && !Distinct(Entered(next, start, k)))
      && (d == k || next(Cursor(next, start, d)).None? ==> Distinct(Entered(next, start, k)))
  {
    var d := FreshSteps(next, start, k);
    FreshShape(next, start, k);
    if d < k && next(Cursor(next, start, d)).Some? {
      LoopFillsBudget(next, start, d, k);
      forall n | n in Entered(next, start, d) ensures n in Entered(next, start, k) {
        EnteredGrows(next, start, d, k, n);
      }
      forall n | n in Entered(next, start, k) ensures n in Entered(next, start, d) {
        NothingNew(next, start, d, k, n);
      }
    } else if d < k {
      StoppedStays(next, start, d, k);
    }
  }

  /** `n` is the first node that `nodes` comes back to. */
  ghost predicate FirstRepeat(nodes: seq<u32>, n: u32) {
    exists d: nat :: RepeatsAt(nodes, d) && nodes[d] == n
  }

  ghost predicate RepeatsAt(nodes: seq<u32>, d: nat) {
    d < |nodes| && Distinct(nodes[..d]) && nodes[d] in nodes[..d]
  }

  lemma {:induction false} RepeatsAtIsUnique(nodes: seq<u32>, d: nat, e: nat)
    requires RepeatsAt(nodes, d) && d < e <= |nodes|
    ensures !Distinct(nodes[..e])
  {
    var i :| 0 <= i < d && nodes[..d][i] == nodes[d];
    assert nodes[..e][i] == nodes[..e][d];
  }

  lemma {:induction false} FreshRepeats(next: Successor, start: u32, k: nat)
    requires var d := FreshSteps(next, start, k); d < k && next(Cursor(next, start, d)).Some?
    ensures var d, nodes := FreshSteps(next, start, k), Entered(next, start, k);
      RepeatsAt(nodes, d) && nodes[d] == Cursor(next, start, d)
  {
    var d := FreshSteps(next, start, k);
    FreshShape(next, start, k);
    LoopFillsBudget(next, start, d, k);
    EnteredShape(next, start, d);
    EnteredShape(next, start, k);
    assert Entered(next, start, k)[..d] == Entered(next, start, d);
  }

  lemma {:induction false} FirstRepeatIsFresh(next: Successor, start: u32, k: nat, n: u32)
    ensures FirstRepeat(Entered(next, start, k), n)
       <==> var d := FreshSteps(next, start, k);
            d < k && next(Cursor(next, start, d)).Some? && Cursor(next, start, d) == n
  {
    var d, nodes := FreshSteps(next, start, k), Entered(next, start, k);
    FreshCoversEntered(next, start, k);
    if d < k && next(Cursor(next, start, d)).Some? {
      FreshRepeats(next, start, k);
    }
    if e: nat :| RepeatsAt(nodes, e) && nodes[e] == n {
      RepeatsAtIsUnique(nodes, e, |nodes|);
      assert nodes[..|nodes|] == nodes;
      if d < e {
        RepeatsAtIsUnique(nodes, d, e);
      } else if e < d {
        RepeatsAtIsUnique(nodes, e, d);
      }
    }
  }

  /** `pos` says, for each element of `found`, which node of `nodes` yielded it: never an
      earlier one than the element before. */
  ghost predicate InOrderOf<T>(f: u32 -> seq<T>, nodes: seq<u32>, found: seq<T>, pos: seq<nat>) {
    && |pos| == |found|
    && (forall i :: 0 <= i < |pos| ==> pos[i] < |nodes| && found[i] in f(nodes[pos[i]]))
    && forall i, j :: 0 <= i < j < |pos| ==> pos[i] <= pos[j]
  }

  lemma {:induction false} InOrderSnoc<T>(
    f: u32 -> seq<T>, nodes: seq<u32>, found: seq<T>, pos: seq<nat>, node: u32) returns (pos': seq<nat>)
    requires InOrderOf(f, nodes, found, pos)
    ensures InOrderOf(f, nodes + [node], found + f(node), pos')
  {
    var more: seq<nat> := seq(|f(node)|, i => |nodes|);
    pos' := pos + more;
  }

  lemma {:induction false} CollectedInOrder<T>(next: Successor, f: u32 -> seq<T>, start: u32, k: nat)
    returns (pos: seq<nat>)
    ensures InOrderOf(f, Entered(next, start, k), Collected(next, f, start, k), pos)
  {
    hide InOrderOf;
    if k == 0 {
      pos := NothingInOrder(f);
    } else {
      pos := CollectedInOrder(next, f, start, k - 1);
      var node := Cursor(next, start, k - 1);
      if next(node).Some? {
        pos := InOrderSnoc(f, Entered(next, start, k - 1), Collected(next, f, start, k - 1), pos, node);
      } else {
        assert Entered(next, start, k - 1) + [] == Entered(next, start, k - 1);
        assert Collected(next, f, start, k - 1) + [] == Collected(next, f, start, k - 1);
      }
    }
  }

  lemma {:induction false} NothingInOrder<T>(f: u32 -> seq<T>) returns (pos: seq<nat>)
    ensures InOrderOf(f, [], [], pos)
  {
    pos := [];
  }
}
