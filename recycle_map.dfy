/** The position map of a page deletion: which page of the old version
    feeds which page of the new one (`PageRecycleMap` in
    papermerge/core/views/utils.py). */
module RecycleMap {
  import opened Common

  /** One `(new_number, old_number)` pair: page `newNumber` of the new
      version takes its data from page `oldNumber` of the old version. */
  type Item = PagePair

  /** `[p for p in range(lo, hi + 1) if p not in deleted]`, built from the
      top down so that it grows by one candidate at a time. */
  function SurvivorsIn(lo: int, hi: int, deleted: seq<int>): (r: seq<int>)
    ensures |r| <= if hi < lo then 0 else hi - lo + 1
    ensures forall i :: 0 <= i < |r| ==> lo <= r[i] <= hi
    decreases if hi < lo then 0 else hi - lo + 1
  {
    if hi < lo then []
    else SurvivorsIn(lo, hi - 1, deleted) + (if hi in deleted then [] else [hi])
  }

  /** The page numbers 1 .. total that survive the deletion. */
  function Survivors(total: int, deleted: seq<int>): (r: seq<int>)
    ensures |r| <= if total < 1 then 0 else total
    ensures forall i :: 0 <= i < |r| ==> 1 <= r[i] <= total
  {
    SurvivorsIn(1, total, deleted)
  }

  /** The position map: survivors numbered 1, 2, ... (the `zip` of
      `range(1, len(_pages) + 1)` with the survivors). */
  function Items(total: int, deleted: seq<int>): (r: seq<Item>)
    ensures |r| == |Survivors(total, deleted)|
  {
    var s := Survivors(total, deleted);
    seq(|s|, i requires 0 <= i < |s| => PagePair(i + 1, s[i]))
  }

  // ---------------------------------------------------------------------
  // The iterator object

  /** A consumable iterator over the position map. `remaining` is what the
      wrapped `zip` object has not yet yielded. */
  class PageRecycleMap {
    const total: int
    const deleted: seq<int>
    var remaining: seq<Item>

    /** The field assignments and the map comprehension of `__init__`,
        once its argument checks have passed (see `Create`). */
    constructor (total: int, deleted: seq<int>)
      ensures this.total == total && this.deleted == deleted
      ensures remaining == Items(total, deleted)
    {
      this.total := total;
      this.deleted := deleted;
      remaining := Items(total, deleted);
    }

    /** `__next__`: yields the next pair, or `None` for `StopIteration`. */
    method Next() returns (item: Option<Item>)
      modifies this
      ensures old(remaining) == [] ==> item == None && remaining == []
      ensures old(remaining) != [] ==>
        item == Some(old(remaining)[0]) && remaining == old(remaining)[1..]
    {
      if remaining == [] {
        item := None;
      } else {
        item := Some(remaining[0]);
        remaining := remaining[1..];
      }
    }
  }

  /** `PageRecycleMap(total, deleted)`: raises `ValueError` when more
      pages are deleted than exist; deleted numbers outside 1 .. total are
      accepted. (The check that `deleted` is a sequence is the type.) */
  method Create(total: int, deleted: seq<int>) returns (r: Result<PageRecycleMap>)
    ensures r.Err? <==> total < |deleted|
    ensures r.Err? ==> r.error == ValueError
    ensures r.Ok? ==> fresh(r.value) && r.value.remaining == Items(total, deleted)
  {
    if total < |deleted| {
      return Err(ValueError);
    }
    var m := new PageRecycleMap(total, deleted);
    r := Ok(m);
  }

  /** `list(page_recycle_map)`: drains the iterator. */
  method Drain(m: PageRecycleMap) returns (items: seq<Item>)
    modifies m
    ensures items == old(m.remaining) && m.remaining == []
  {
    items := [];
    while true
      invariant items + m.remaining == old(m.remaining)
      decreases |m.remaining|
    {
      var next := m.Next();
      if next.None? {
        return;
      }
      items := items + [next.value];
    }
  }

  // ---------------------------------------------------------------------
  // Properties of the survivors

  lemma {:induction false} SurvivorsMembers(lo: int, hi: int, deleted: seq<int>, p: int)
    ensures p in SurvivorsIn(lo, hi, deleted) <==> lo <= p <= hi && p !in deleted
    decreases if hi < lo then 0 else hi - lo + 1
  {
    if hi >= lo {
      SurvivorsMembers(lo, hi - 1, deleted, p);
    }
  }

  lemma {:induction false} SurvivorsAscending(lo: int, hi: int, deleted: seq<int>)
    ensures StrictlyAscending(SurvivorsIn(lo, hi, deleted))
    decreases if hi < lo then 0 else hi - lo + 1
  {
    if hi >= lo {
      var prev := SurvivorsIn(lo, hi - 1, deleted);
      SurvivorsAscending(lo, hi - 1, deleted);
      forall i | 0 <= i < |prev| ensures prev[i] < hi {
        SurvivorsMembers(lo, hi - 1, deleted, prev[i]);
      }
    }
  }

  /** Splitting the candidate range splits the survivors. */
  lemma {:induction false} SurvivorsSplit(lo: int, mid: int, hi: int, deleted: seq<int>)
    requires lo - 1 <= mid <= hi
    ensures SurvivorsIn(lo, hi, deleted) == SurvivorsIn(lo, mid, deleted) + SurvivorsIn(mid + 1, hi, deleted)
    decreases hi - mid
  {
    if hi > mid {
      SurvivorsSplit(lo, mid, hi - 1, deleted);
    }
  }

  /** Only the deleted numbers inside the range matter. */
  lemma {:induction false} SurvivorsAgree(lo: int, hi: int, d1: seq<int>, d2: seq<int>)
    requires forall p :: lo <= p <= hi ==> (p in d1 <==> p in d2)
    ensures SurvivorsIn(lo, hi, d1) == SurvivorsIn(lo, hi, d2)
    decreases if hi < lo then 0 else hi - lo + 1
  {
    if hi >= lo {
      SurvivorsAgree(lo, hi - 1, d1, d2);
    }
  }

  /** A range that loses nothing survives whole. */
  lemma {:induction false} SurvivorsNone(lo: int, hi: int, deleted: seq<int>)
    requires forall p :: lo <= p <= hi ==> p !in deleted
    ensures SurvivorsIn(lo, hi, deleted) == Range(lo, hi)
    decreases if hi < lo then 0 else hi - lo + 1
  {
    if hi >= lo {
      SurvivorsNone(lo, hi - 1, deleted);
      assert Range(lo, hi) == Range(lo, hi - 1) + [hi];
    }
  }

  /** The survivors of lo .. hi split around one candidate x. */
  lemma SurvivorsAround(lo: int, x: int, hi: int, deleted: seq<int>)
    requires lo <= x <= hi
    ensures SurvivorsIn(lo, hi, deleted) ==
      SurvivorsIn(lo, x - 1, deleted) + (if x in deleted then [] else [x]) + SurvivorsIn(x + 1, hi, deleted)
  {
    SurvivorsSplit(lo, x, hi, deleted);
    SurvivorsSplit(lo, x - 1, x, deleted);
  }

  /** Deleting distinct pages that all lie in lo .. hi leaves exactly
      (hi - lo + 1) - |deleted| survivors. */
  lemma {:induction false} SurvivorsCount(lo: int, hi: int, deleted: seq<int>)
    requires lo <= hi + 1
    requires Distinct(deleted)
    requires forall i :: 0 <= i < |deleted| ==> lo <= deleted[i] <= hi
    ensures |SurvivorsIn(lo, hi, deleted)| == hi - lo + 1 - |deleted|
    decreases |deleted|
  {
    if deleted == [] {
      SurvivorsNone(lo, hi, deleted);
    } else {
      var prefix, x := deleted[..|deleted| - 1], deleted[|deleted| - 1];
      assert deleted == prefix + [x];
      assert x !in prefix;
      SurvivorsCount(lo, hi, prefix);
      SurvivorsAround(lo, x, hi, deleted);
      SurvivorsAround(lo, x, hi, prefix);
      SurvivorsAgree(lo, x - 1, deleted, prefix);
      SurvivorsAgree(x + 1, hi, deleted, prefix);
    }
  }

  /** The pages deleted before x, in ascending order, all lie below x,
      are distinct, and are what remains of the list once x is dropped. */
  lemma BelowNext(prefix: seq<int>, x: int)
    requires StrictlyAscending(prefix + [x])
    ensures forall i :: 0 <= i < |prefix| ==> prefix[i] < x
    ensures Distinct(prefix) && x !in prefix
    ensures forall p :: p in prefix + [x] <==> p in prefix || p == x
  {
    var nums := prefix + [x];
    forall i | 0 <= i < |prefix| ensures prefix[i] < x {
      assert prefix[i] == nums[i] && nums[|prefix|] == x;
    }
    forall i, j | 0 <= i < j < |prefix| ensures prefix[i] != prefix[j] {
      assert prefix[i] == nums[i] && prefix[j] == nums[j];
    }
  }

  /** Deleting one more page x, larger than every page deleted so far,
      takes x out of the survivors at position x - |prefix| (1-based). */
  lemma SurvivorsDeleteNext(n: int, prefix: seq<int>, x: int) returns (a: seq<int>, b: seq<int>)
    requires 1 <= x <= n
    requires StrictlyAscending(prefix + [x])
    requires forall i :: 0 <= i < |prefix| ==> 1 <= prefix[i]
    ensures Survivors(n, prefix) == a + [x] + b
    ensures Survivors(n, prefix + [x]) == a + b
    ensures |a| == x - 1 - |prefix|
  {
    var nums := prefix + [x];
    a := SurvivorsIn(1, x - 1, prefix);
    b := SurvivorsIn(x + 1, n, prefix);
    BelowNext(prefix, x);
    SurvivorsAround(1, x, n, prefix);
    SurvivorsCount(1, x - 1, prefix);
    SurvivorsAround(1, x, n, nums);
    SurvivorsAgree(1, x - 1, nums, prefix);
    SurvivorsAgree(x + 1, n, nums, prefix);
  }

  // ---------------------------------------------------------------------
  // Properties of the position map

  /** The shape the position map promises: new numbers run 1 .. k, the old
      numbers are exactly the pages of 1 .. total that are not deleted, in
      ascending order. */
  lemma ItemsShape(total: int, deleted: seq<int>)
    ensures forall i :: 0 <= i < |Items(total, deleted)| ==> Items(total, deleted)[i].newNumber == i + 1
    ensures Olds(Items(total, deleted)) == Survivors(total, deleted)
    ensures StrictlyAscending(Olds(Items(total, deleted)))
    ensures forall p :: p in Olds(Items(total, deleted)) <==> 1 <= p <= total && p !in deleted
  {
    SurvivorsAscending(1, total, deleted);
    forall p ensures p in Survivors(total, deleted) <==> 1 <= p <= total && p !in deleted {
      SurvivorsMembers(1, total, deleted, p);
    }
  }

  /** With distinct deleted pages inside 1 .. total the map has exactly
      total - |deleted| entries. */
  lemma ItemsCount(total: int, deleted: seq<int>)
    requires 0 <= total
    requires Distinct(deleted) && AllIn(deleted, total)
    ensures |Items(total, deleted)| == total - |deleted|
  {
    SurvivorsCount(1, total, deleted);
  }

  /** Deleted numbers outside 1 .. total are not rejected: they delete
      nothing (`PageRecycleMap(3, [4])` keeps all three pages). */
  lemma OutOfRangeDeletedIgnored(total: int, deleted: seq<int>)
    requires forall i :: 0 <= i < |deleted| ==> deleted[i] < 1 || total < deleted[i]
    ensures Items(total, deleted) == Items(total, [])
  {
    SurvivorsAgree(1, total, deleted, []);
  }

  /** The three worked examples of the class's documentation. */
  lemma DocumentedExamples()
    ensures Items(6, [1, 2]) == [PagePair(1, 3), PagePair(2, 4), PagePair(3, 5), PagePair(4, 6)]
    ensures Items(5, [1, 5]) == [PagePair(1, 2), PagePair(2, 3), PagePair(3, 4)]
    ensures Items(5, [2, 3]) == [PagePair(1, 1), PagePair(2, 4), PagePair(3, 5)]
  {
    DeleteFirstTwo();
    ItemsOfFour(6, [1, 2], 3, 4, 5, 6);
    DeleteFirstAndLast();
    ItemsOfThree(5, [1, 5], 2, 3, 4);
    DeleteMiddleTwo();
    ItemsOfThree(5, [2, 3], 1, 4, 5);
  }

  lemma ItemsOfThree(total: int, deleted: seq<int>, a: int, b: int, c: int)
    requires Survivors(total, deleted) == [a, b, c]
    ensures Items(total, deleted) == [PagePair(1, a), PagePair(2, b), PagePair(3, c)]
  {
  }

  lemma ItemsOfFour(total: int, deleted: seq<int>, a: int, b: int, c: int, d: int)
    requires Survivors(total, deleted) == [a, b, c, d]
    ensures Items(total, deleted) == [PagePair(1, a), PagePair(2, b), PagePair(3, c), PagePair(4, d)]
  {
  }

  lemma DeleteFirstTwo()
    ensures Survivors(6, [1, 2]) == [3, 4, 5, 6]
  {
    SurvivorsAround(1, 2, 6, [1, 2]);
    SurvivorsAround(1, 1, 1, [1, 2]);
    SurvivorsNone(3, 6, [1, 2]);
  }

  lemma DeleteFirstAndLast()
    ensures Survivors(5, [1, 5]) == [2, 3, 4]
  {
    SurvivorsAround(1, 1, 5, [1, 5]);
    SurvivorsAround(2, 5, 5, [1, 5]);
    SurvivorsNone(2, 4, [1, 5]);
  }

  lemma DeleteMiddleTwo()
    ensures Survivors(5, [2, 3]) == [1, 4, 5]
  {
    SurvivorsAround(1, 3, 5, [2, 3]);
    SurvivorsAround(1, 2, 2, [2, 3]);
    SurvivorsNone(1, 1, [2, 3]);
    SurvivorsNone(4, 5, [2, 3]);
  }
}
