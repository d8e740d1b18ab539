/** Sequence vocabulary shared by the record walks: a closure that the source
    hands to the leaf walk becomes a function applied to every delivered record. */
module Sequences {
  import opened Wrappers

  function Flatten<T>(xss: seq<seq<T>>): seq<T> {
    if xss == [] then [] else xss[0] + Flatten(xss[1..])
  }

  function DropLast<T>(xs: seq<T>): seq<T>
    requires xs != []
  {
    xs[..|xs| - 1]
  }

  function Last<T>(xs: seq<T>): T
    requires xs != []
  {
    xs[|xs| - 1]
  }

  function Opt<T>(o: Option<T>): seq<T> {
    match o case Some(x) => [x] case None => []
  }

  /** The values `f` produces, in order: a closure that pushes its hits. */
  function FilterMap<A, B>(f: A -> Option<B>, xs: seq<A>): seq<B> {
    if xs == [] then [] else FilterMap(f, DropLast(xs)) + Opt(f(Last(xs)))
  }

  /** The first value `f` produces: a closure that stops looking after a hit. */
  function FirstSome<A, B>(f: A -> Option<B>, xs: seq<A>): Option<B> {
    if xs == [] then None
    else match FirstSome(f, DropLast(xs))
      case Some(b) => Some(b)
      case None => f(Last(xs))
  }

  ghost predicate Distinct<T>(xs: seq<T>) {
    forall i, j :: 0 <= i < j < |xs| ==> xs[i] != xs[j]
  }

  lemma {:induction false} FlattenAppend<T>(xss: seq<seq<T>>, yss: seq<seq<T>>)
    ensures Flatten(xss + yss) == Flatten(xss) + Flatten(yss)
  {
    if xss == [] {
      assert xss + yss == yss;
    } else {
      assert (xss + yss)[1..] == xss[1..] + yss;
      FlattenAppend(xss[1..], yss);
    }
  }

  lemma {:induction false} FilterMapAppend<A, B>(f: A -> Option<B>, xs: seq<A>, ys: seq<A>)
    ensures FilterMap(f, xs + ys) == FilterMap(f, xs) + FilterMap(f, ys)
  {
    if ys == [] {
      assert xs + ys == xs;
    } else {
      assert DropLast(xs + ys) == xs + DropLast(ys) && Last(xs + ys) == Last(ys);
      FilterMapAppend(f, xs, DropLast(ys));
      assert FilterMap(f, xs) + (FilterMap(f, DropLast(ys)) + Opt(f(Last(ys))))
          == (FilterMap(f, xs) + FilterMap(f, DropLast(ys))) + Opt(f(Last(ys)));
    }
  }

  /** One more record: what a loop over the delivered records adds per round. */
  lemma {:induction false} FilterMapStep<A, B>(f: A -> Option<B>, xs: seq<A>, i: nat)
    requires i < |xs|
    ensures FilterMap(f, xs[..i + 1]) == FilterMap(f, xs[..i]) + Opt(f(xs[i]))
  {
    assert DropLast(xs[..i + 1]) == xs[..i];
  }

  lemma {:induction false} FirstSomeStep<A, B>(f: A -> Option<B>, xs: seq<A>, i: nat)
    requires i < |xs|
    ensures FirstSome(f, xs[..i + 1])
         == if FirstSome(f, xs[..i]).Some? then FirstSome(f, xs[..i]) else f(xs[i])
  {
    assert DropLast(xs[..i + 1]) == xs[..i];
  }

  /** A value is collected exactly when some record yields it. */
  lemma {:induction false} FilterMapMember<A, B>(f: A -> Option<B>, xs: seq<A>, b: B)
    ensures b in FilterMap(f, xs) <==> exists i :: 0 <= i < |xs| && f(xs[i]) == Some(b)
  {
    if xs != [] {
      var init := DropLast(xs);
      FilterMapMember(f, init, b);
      if b in FilterMap(f, init) {
        var i :| 0 <= i < |init| && f(init[i]) == Some(b);
        assert f(xs[i]) == Some(b);
      }
      if i :| 0 <= i < |xs| && f(xs[i]) == Some(b) {
        assert i < |init| ==> f(init[i]) == Some(b);
      }
    }
  }

  lemma {:induction false} FilterMapNone<A, B>(f: A -> Option<B>, xs: seq<A>)
    requires forall x :: x in xs ==> f(x).None?
    ensures FilterMap(f, xs) == []
  {
    if xs != [] {
      FilterMapNone(f, DropLast(xs));
    }
  }

  /** `FirstSome` is the value at the least index where `f` has one. */
  lemma {:induction false} FirstSomeIndex<A, B>(f: A -> Option<B>, xs: seq<A>) returns (k: nat)
    ensures k <= |xs|
    ensures forall i :: 0 <= i < k ==> f(xs[i]).None?
    ensures k < |xs| ==> f(xs[k]).Some?
    ensures FirstSome(f, xs) == if k < |xs| then f(xs[k]) else None
  {
    if xs == [] {
      k := 0;
    } else {
      k := FirstSomeIndex(f, DropLast(xs));
      assert forall i :: 0 <= i < |xs| - 1 ==> DropLast(xs)[i] == xs[i];
      if k == |xs| - 1 && f(Last(xs)).None? {
        k := |xs|;
      }
    }
  }

  ghost predicate FirstHit<A, B>(f: A -> Option<B>, xs: seq<A>, i: nat)
    requires i < |xs|
  {
    f(xs[i]).Some? && forall h :: 0 <= h < i ==> f(xs[h]).None?
  }

  /** The value at `j` is the first one exactly when every earlier first hit equals it. */
  lemma {:induction false} FirstSomeIsFirstHit<A, B>(f: A -> Option<B>, xs: seq<A>, j: nat)
    requires j < |xs| && f(xs[j]).Some?
    ensures FirstSome(f, xs) == f(xs[j])
       <==> forall i :: 0 <= i < j && FirstHit(f, xs, i) ==> f(xs[i]) == f(xs[j])
  {
    var k := FirstSomeIndex(f, xs);
    assert k <= j && FirstHit(f, xs, k);
  }

  // ---- pieces of a flattened sequence ----------------------------------------

  lemma {:induction false} FlattenTake<T>(xss: seq<seq<T>>, i: nat)
    requires i < |xss|
    ensures Flatten(xss[..i + 1]) == Flatten(xss[..i]) + xss[i]
  {
    assert xss[..i + 1] == xss[..i] + [xss[i]];
    FlattenAppend(xss[..i], [xss[i]]);
    assert Flatten([xss[i]]) == xss[i] + Flatten([xss[i]][1..]);
  }

  lemma {:induction false} FlattenSplit<T>(xss: seq<seq<T>>, i: nat)
    requires i <= |xss|
    ensures Flatten(xss) == Flatten(xss[..i]) + Flatten(xss[i..])
  {
    assert xss == xss[..i] + xss[i..];
    FlattenAppend(xss[..i], xss[i..]);
  }

  lemma {:induction false} FlattenSlice<T>(xss: seq<seq<T>>, i: nat)
    requires i < |xss|
    ensures var at := |Flatten(xss[..i])|;
      at + |xss[i]| <= |Flatten(xss)| && Flatten(xss)[at..at + |xss[i]|] == xss[i]
  {
    FlattenSplit(xss, i + 1);
    FlattenTake(xss, i);
  }
}
