/**
 * The histogram of the statistics snapshot: a JavaScript `Map` from a filament
 * length to the number of filaments of that length. Only its entries matter
 * here, not its key order.
 */
module Histograms {
  /** The histogram `h` with one more entry under `k`. */
  function Bump(h: map<int, int>, k: int): (r: map<int, int>)
    ensures r.Keys == h.Keys + {k}
    ensures r[k] == (if k in h then h[k] else 0) + 1
    ensures forall j :: j in h && j != k ==> r[j] == h[j]
  {
    if k in h then h[k := h[k] + 1] else h[k := 1]
  }

  /** A key at which `Total` takes a map apart. */
  ghost function Pick(h: map<int, int>): (k: int)
    requires exists k :: k in h
    ensures k in h
  {
    var k :| k in h; k
  }

  /** The sum of the values of `h`. */
  ghost function Total(h: map<int, int>): int
    decreases |h.Keys|
  {
    if exists k :: k in h then
      var k := Pick(h);
      h[k] + Total(h - {k})
    else 0
  }

  /** `Total` may take out any key first. */
  lemma {:induction false} TotalRemove(h: map<int, int>, k: int)
    requires k in h
    ensures Total(h) == h[k] + Total(h - {k})
    decreases |h.Keys|
  {
    var j := Pick(h);
    if j != k {
      var rest := h - {j};
      TotalRemove(rest, k);
      assert rest - {k} == (h - {k}) - {j};
      TotalRemove(h - {k}, j);
    }
  }

  /** One more entry adds one to the sum. */
  lemma BumpTotal(h: map<int, int>, k: int)
    ensures Total(Bump(h, k)) == Total(h) + 1
  {
    TotalRemove(Bump(h, k), k);
    if k in h {
      TotalRemove(h, k);
      assert Bump(h, k) - {k} == h - {k};
    } else {
      assert Bump(h, k) - {k} == h;
    }
  }
}
