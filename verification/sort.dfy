/**
 * The stable sort behind `sorted(keys, key=...)`: an insertion sort by a numeric id that
 * keeps equal-id elements in their input order, as Python's sort does.
 */
module Sorting {

  predicate SortedBy(xs: seq<string>, id: string -> int) {
    forall i, j :: 0 <= i < j < |xs| ==> id(xs[i]) <= id(xs[j])
  }

  /** Insert x after every element whose id is at most x's. */
  function InsertBy(xs: seq<string>, x: string, id: string -> int): (r: seq<string>)
    requires SortedBy(xs, id)
    ensures SortedBy(r, id)
    ensures multiset(r) == multiset(xs) + multiset{x}
  {
    if |xs| == 0 then [x]
    else
      var n := |xs| - 1;
      var last := xs[n];
      if id(last) <= id(x) then xs + [x]
      else
        var r := InsertBy(xs[..n], x, id);
        assert xs == xs[..n] + [last];
        InsertedBelow(r, xs[..n], x, last, id);
        r + [last]
  }

  /** Every element of a sorted sequence with x inserted is at most the bound, when the
      sequence and x are. */
  lemma InsertedBelow(r: seq<string>, init: seq<string>, x: string, last: string, id: string -> int)
    requires multiset(r) == multiset(init) + multiset{x}
    requires forall y :: y in init ==> id(y) <= id(last)
    requires id(x) <= id(last)
    ensures forall y :: y in r ==> id(y) <= id(last)
  {
    forall y | y in r
      ensures id(y) <= id(last)
    {
      assert y in multiset(r);
    }
  }

  /** Sort by id, keeping equal-id elements in input order. */
  function SortBy(xs: seq<string>, id: string -> int): (r: seq<string>)
    ensures SortedBy(r, id)
    ensures multiset(r) == multiset(xs)
  {
    if |xs| == 0 then []
    else
      var n := |xs| - 1;
      assert xs == xs[..n] + [xs[n]];
      InsertBy(SortBy(xs[..n], id), xs[n], id)
  }

  /** The elements whose id is v, in order. */
  function WithId(xs: seq<string>, id: string -> int, v: int): seq<string> {
    if |xs| == 0 then []
    else
      var n := |xs| - 1;
      WithId(xs[..n], id, v) + (if id(xs[n]) == v then [xs[n]] else [])
  }

  lemma WithIdSnoc(xs: seq<string>, x: string, id: string -> int, v: int)
    ensures WithId(xs + [x], id, v) == WithId(xs, id, v) + (if id(x) == v then [x] else [])
  {
    assert (xs + [x])[..|xs|] == xs;
  }

  lemma {:induction false} InsertByStable(xs: seq<string>, x: string, id: string -> int, v: int)
    requires SortedBy(xs, id)
    ensures WithId(InsertBy(xs, x, id), id, v) == WithId(xs, id, v) + (if id(x) == v then [x] else [])
  {
    if |xs| == 0 {
      assert InsertBy(xs, x, id) == [] + [x];
      WithIdSnoc([], x, id, v);
    } else {
      var n := |xs| - 1;
      var init, last := xs[..n], xs[n];
      if id(last) <= id(x) {
        assert InsertBy(xs, x, id) == xs + [x];
        WithIdSnoc(xs, x, id, v);
      } else {
        assert xs == init + [last];
        assert InsertBy(xs, x, id) == InsertBy(init, x, id) + [last];
        InsertByStable(init, x, id, v);
        InsertShifted(init, x, last, id, v);
      }
    }
  }

  /** The step of the stability proof where x goes before the last element. */
  lemma InsertShifted(init: seq<string>, x: string, last: string, id: string -> int, v: int)
    requires SortedBy(init, id)
    requires id(x) < id(last)
    requires WithId(InsertBy(init, x, id), id, v) == WithId(init, id, v) + (if id(x) == v then [x] else [])
    ensures WithId(InsertBy(init, x, id) + [last], id, v)
         == WithId(init + [last], id, v) + (if id(x) == v then [x] else [])
  {
    WithIdSnoc(InsertBy(init, x, id), last, id, v);
    WithIdSnoc(init, last, id, v);
  }

  /** One step of the sort: the last element inserted into the sorted rest. */
  lemma SortBySnoc(xs: seq<string>, id: string -> int)
    requires |xs| > 0
    ensures SortBy(xs, id) == InsertBy(SortBy(xs[..|xs| - 1], id), xs[|xs| - 1], id)
  {
  }

  /** The sort is stable: for every id, the elements carrying it keep their input order. */
  lemma {:induction false} SortByStable(xs: seq<string>, id: string -> int, v: int)
    ensures WithId(SortBy(xs, id), id, v) == WithId(xs, id, v)
  {
    if |xs| > 0 {
      var n := |xs| - 1;
      var init := xs[..n];
      var tail := if id(xs[n]) == v then [xs[n]] else [];
      SortByStable(init, id, v);
      SortBySnoc(xs, id);
      InsertByStable(SortBy(init, id), xs[n], id, v);
      assert WithId(xs, id, v) == WithId(init, id, v) + tail;
    }
  }

  lemma InsertBefore(x: string, y: string, id: string -> int)
    requires id(y) < id(x)
    ensures InsertBy([x], y, id) == [y, x]
  {
    assert [x][..0] == [];
  }

  lemma InsertAfter(xs: seq<string>, y: string, id: string -> int)
    requires SortedBy(xs, id)
    requires |xs| > 0 && id(xs[|xs| - 1]) <= id(y)
    ensures InsertBy(xs, y, id) == xs + [y]
  {
  }

  /** Three elements whose ids fall in the order second, third, first. */
  lemma SortThree(x: string, y: string, z: string, id: string -> int)
    requires id(y) < id(z) < id(x)
    ensures SortBy([x, y, z], id) == [y, z, x]
  {
    SortBySnoc([x], id);
    assert [x][..0] == [];
    SortBySnoc([x, y], id);
    assert [x, y][..1] == [x];
    InsertBefore(x, y, id);
    SortBySnoc([x, y, z], id);
    assert [x, y, z][..2] == [x, y];
    InsertMiddle(y, x, z, id);
  }

  lemma InsertMiddle(y: string, x: string, z: string, id: string -> int)
    requires id(y) < id(z) < id(x)
    ensures InsertBy([y, x], z, id) == [y, z, x]
  {
    assert [y, x][..1] == [y];
    InsertAfter([y], z, id);
  }
}
