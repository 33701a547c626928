/**
 * Walks along one kind of neighbour link (`minus` or `plus`) of a filament.
 *
 * A subunit's link is a reference that may be null. Walking it means following it
 * until it is null, which terminates only on an acyclic chain. A link snapshot
 * `Links<T>` records, for every subunit, where that link points. A walk is given
 * `|m| + 1` steps of fuel. A chain that ends within `|m|` elements is one that
 * terminates.
 */
module Chains {
  import opened Wrappers

  type Links<T> = map<T, Option<T>>

  /** The subunits visited from `x` by following links, at most `fuel` of them. */
  function Walk<T>(m: Links<T>, x: T, fuel: nat): (w: seq<T>)
    ensures |w| <= fuel
    ensures fuel > 0 ==> |w| >= 1 && w[0] == x
    decreases fuel
  {
    if fuel == 0 then []
    else if x in m && m[x].Some? then [x] + Walk(m, m[x].value, fuel - 1)
    else [x]
  }

  /** The chain from `x`: `x` itself and every subunit reached after it. */
  function Chain<T>(m: Links<T>, x: T): seq<T>
  {
    Walk(m, x, |m| + 1)
  }

  /** Following links from `x` reaches a null link. */
  predicate Terminates<T>(m: Links<T>, x: T)
  {
    |Chain(m, x)| <= |m|
  }

  /** No chain of `m` is a cycle. */
  predicate Acyclic<T>(m: Links<T>)
  {
    forall x {:trigger Terminates(m, x)} :: x in m ==> Terminates(m, x)
  }

  /** Every link of `m` points at a subunit that `m` also records. */
  predicate Closed<T>(m: Links<T>)
  {
    forall x {:trigger m[x]} :: x in m && m[x].Some? ==> m[x].value in m
  }

  /** `m'` arises from `m` by setting some links to null and changing no other link. */
  predicate Cuts<T>(m: Links<T>, m': Links<T>)
  {
    && m'.Keys == m.Keys
    && forall x :: x in m ==> m'[x] == m[x] || m'[x].None?
  }

  /** Consecutive elements of a walk are joined by a link. */
  lemma {:induction false} WalkStep<T>(m: Links<T>, x: T, fuel: nat, i: nat)
    requires i + 1 < |Walk(m, x, fuel)|
    ensures Walk(m, x, fuel)[i] in m && m[Walk(m, x, fuel)[i]].Some?
    ensures Walk(m, x, fuel)[i + 1] == m[Walk(m, x, fuel)[i]].value
    decreases fuel
  {
    if i > 0 {
      WalkStep(m, m[x].value, fuel - 1, i - 1);
    }
  }

  /** A walk that stops before its fuel runs out stops at a null link. */
  lemma {:induction false} WalkEnd<T>(m: Links<T>, x: T, fuel: nat)
    requires 0 < |Walk(m, x, fuel)| < fuel
    ensures var w := Walk(m, x, fuel); w[|w| - 1] !in m || m[w[|w| - 1]].None?
    decreases fuel
  {
    if x in m && m[x].Some? {
      WalkEnd(m, m[x].value, fuel - 1);
    }
  }

  /** A walk that stops before its fuel runs out is the same walk with any fuel that lets it stop. */
  lemma {:induction false} WalkFuel<T>(m: Links<T>, x: T, fuel: nat, other: nat)
    requires |Walk(m, x, fuel)| < fuel && |Walk(m, x, fuel)| < other
    ensures Walk(m, x, other) == Walk(m, x, fuel)
    decreases fuel
  {
    if x in m && m[x].Some? {
      WalkFuel(m, m[x].value, fuel - 1, other - 1);
    }
  }

  /** The tail of a walk is the walk from the second element with one step less. */
  lemma {:induction false} WalkSuffix<T>(m: Links<T>, x: T, fuel: nat, i: nat)
    requires i < |Walk(m, x, fuel)|
    ensures Walk(m, x, fuel)[i..] == Walk(m, Walk(m, x, fuel)[i], fuel - i)
    decreases fuel
  {
    if i > 0 {
      WalkSuffix(m, m[x].value, fuel - 1, i - 1);
    }
  }

  /**
   * Following the link from `x` gives the rest of `x`'s chain, and that chain
   * terminates too.
   */
  lemma ChainNext<T>(m: Links<T>, x: T)
    requires Terminates(m, x) && x in m && m[x].Some?
    ensures Chain(m, m[x].value) == Chain(m, x)[1..]
    ensures Terminates(m, m[x].value)
  {
    var y := m[x].value;
    assert Chain(m, x) == [x] + Walk(m, y, |m|);
    WalkFuel(m, y, |m|, |m| + 1);
  }

  /** A subunit that links to itself makes every walk from it use all its fuel. */
  lemma {:induction false} SelfLinkWalk<T>(m: Links<T>, x: T, fuel: nat)
    requires x in m && m[x] == Some(x)
    ensures |Walk(m, x, fuel)| == fuel
    decreases fuel
  {
    if fuel > 0 {
      SelfLinkWalk(m, x, fuel - 1);
    }
  }

  /** A subunit whose chain terminates is not its own neighbour. */
  lemma NoSelfLink<T>(m: Links<T>, x: T)
    requires Terminates(m, x) && x in m
    ensures m[x] != Some(x)
  {
    if m[x] == Some(x) {
      SelfLinkWalk(m, x, |m| + 1);
    }
  }

  /** A walk that stops before its fuel runs out visits each subunit at most once. */
  lemma WalkDistinct<T>(m: Links<T>, x: T, fuel: nat)
    requires |Walk(m, x, fuel)| < fuel
    ensures forall i, j :: 0 <= i < j < |Walk(m, x, fuel)| ==> Walk(m, x, fuel)[i] != Walk(m, x, fuel)[j]
  {
    var w := Walk(m, x, fuel);
    forall i, j | 0 <= i < j < |w|
      ensures w[i] != w[j]
    {
      if w[i] == w[j] {
        WalkSuffix(m, x, fuel, i);
        WalkSuffix(m, x, fuel, j);
        assert |Walk(m, w[j], fuel - j)| == |w| - j < fuel - j;
        WalkFuel(m, w[j], fuel - j, fuel - i);
        assert false;
      }
    }
  }

  /** A terminating chain visits each subunit at most once. */
  lemma ChainDistinct<T>(m: Links<T>, x: T)
    requires Terminates(m, x)
    ensures forall i, j :: 0 <= i < j < |Chain(m, x)| ==> Chain(m, x)[i] != Chain(m, x)[j]
  {
    WalkDistinct(m, x, |m| + 1);
  }

  /** Every subunit visited from a recorded one of a closed snapshot is recorded. */
  lemma {:induction false} WalkInside<T>(m: Links<T>, x: T, fuel: nat)
    requires Closed(m) && x in m
    ensures forall i :: 0 <= i < |Walk(m, x, fuel)| ==> Walk(m, x, fuel)[i] in m
    decreases fuel
  {
    if fuel > 0 && m[x].Some? {
      WalkInside(m, m[x].value, fuel - 1);
    }
  }

  /** A sequence without repetitions drawn from `s` is no longer than `s` is large. */
  lemma {:induction false} DistinctBound<T>(w: seq<T>, s: set<T>)
    requires forall i :: 0 <= i < |w| ==> w[i] in s
    requires forall i, j :: 0 <= i < j < |w| ==> w[i] != w[j]
    ensures |w| <= |s|
    decreases |w|
  {
    if |w| > 0 {
      assert forall i :: 0 <= i < |w[1..]| ==> w[1..][i] == w[i + 1];
      DistinctBound(w[1..], s - {w[0]});
    }
  }

  /**
   * In a closed snapshot, a chain that reaches a null link with any amount of
   * fuel terminates.
   */
  lemma EndsTerminate<T>(m: Links<T>, x: T, fuel: nat)
    requires Closed(m) && x in m && |Walk(m, x, fuel)| < fuel
    ensures Terminates(m, x)
  {
    var w := Walk(m, x, fuel);
    WalkDistinct(m, x, fuel);
    WalkInside(m, x, fuel);
    DistinctBound(w, m.Keys);
    WalkFuel(m, x, fuel, |m| + 1);
  }

  /**
   * Pointing the link of `x` at `y` creates no cycle when `x` is not on the
   * chain from `y`.
   */
  lemma LinkKeepsAcyclic<T>(m: Links<T>, x: T, y: T)
    requires Acyclic(m) && Closed(m) && x in m && y in m && x !in Chain(m, y)
    ensures Acyclic(m[x := Some(y)]) && Closed(m[x := Some(y)])
  {
    var m' := m[x := Some(y)];
    var f := |m| + 1;
    LinkWalkSame(m, x, y, y, f);
    assert Terminates(m, y);
    assert |Walk(m', y, f)| < f;
    forall z | z in m'
      ensures Terminates(m', z)
    {
      assert Terminates(m, z);
      LinkWalkEnds(m, x, y, z, f, f);
      EndsTerminate(m', z, f + f);
    }
  }

  /** A walk that does not pass `x` is the same after the link of `x` changes. */
  lemma {:induction false} LinkWalkSame<T>(m: Links<T>, x: T, y: T, z: T, fuel: nat)
    requires x !in Walk(m, z, fuel)
    ensures Walk(m[x := Some(y)], z, fuel) == Walk(m, z, fuel)
    decreases fuel
  {
    if fuel > 0 && z in m && m[z].Some? {
      LinkWalkSame(m, x, y, m[z].value, fuel - 1);
    }
  }

  /**
   * After `x` is pointed at `y`, a walk of `m` that stops still stops, provided
   * the new walk from `y` stops: with `fuel` and `more` steps of fuel
   * respectively, it stops within `fuel + more`.
   */
  lemma {:induction false} LinkWalkEnds<T>(m: Links<T>, x: T, y: T, z: T, fuel: nat, more: nat)
    requires |Walk(m, z, fuel)| < fuel && |Walk(m[x := Some(y)], y, more)| < more
    ensures |Walk(m[x := Some(y)], z, fuel + more)| < fuel + more
    decreases fuel
  {
    var m' := m[x := Some(y)];
    if z == x {
      WalkFuel(m', y, more, fuel + more - 1);
    } else if z in m && m[z].Some? {
      LinkWalkEnds(m, x, y, m[z].value, fuel - 1, more);
    }
  }

  /** The chain from a subunit whose link is null is that subunit alone. */
  lemma ChainOfEnd<T>(m: Links<T>, y: T)
    requires y !in m || m[y].None?
    ensures Chain(m, y) == [y]
  {
  }

  /** After links are only cut, a walk stops at or before where it stopped. */
  lemma {:induction false} CutWalkPrefix<T>(m: Links<T>, m': Links<T>, x: T, fuel: nat)
    requires Cuts(m, m')
    ensures Walk(m', x, fuel) <= Walk(m, x, fuel)
  {
    if fuel > 0 && x in m' && m'[x].Some? {
      assert m[x] == m'[x];
      CutWalkPrefix(m, m', m[x].value, fuel - 1);
    }
  }

  /**
   * Along a chain that ends, the `n`-th element has a link exactly when the
   * chain goes on, and the link leads to the next element.
   */
  lemma ChainStep<T>(m: Links<T>, x: T, n: nat)
    requires Terminates(m, x) && n < |Chain(m, x)|
    ensures n + 1 < |Chain(m, x)| <==> Chain(m, x)[n] in m && m[Chain(m, x)[n]].Some?
    ensures n + 1 < |Chain(m, x)| ==> Chain(m, x)[n + 1] == m[Chain(m, x)[n]].value
  {
    WalkEnd(m, x, |m| + 1);
    if n + 1 < |Chain(m, x)| {
      WalkStep(m, x, |m| + 1, n);
    }
  }

  /** A chain that terminates still terminates after links are cut. */
  lemma CutTerminates<T>(m: Links<T>, m': Links<T>, x: T)
    requires Terminates(m, x) && Cuts(m, m')
    ensures Terminates(m', x)
  {
    assert |m'| == |m'.Keys| == |m.Keys| == |m|;
    CutWalkPrefix(m, m', x, |m| + 1);
  }

  /** Cutting links creates no cycle. */
  lemma CutsKeepAcyclic<T>(m: Links<T>, m': Links<T>)
    requires Acyclic(m) && Cuts(m, m')
    ensures Acyclic(m')
  {
    assert |m'| == |m'.Keys| == |m.Keys| == |m|;
    forall x | x in m'
      ensures Terminates(m', x)
    {
      assert Terminates(m, x);
      CutWalkPrefix(m, m', x, |m| + 1);
    }
  }

  /** Cuts after cuts are cuts. */
  lemma CutsTrans<T>(m: Links<T>, m': Links<T>, m'': Links<T>)
    requires Cuts(m, m') && Cuts(m', m'')
    ensures Cuts(m, m'')
  {
  }
}
