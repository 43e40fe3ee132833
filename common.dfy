/** Shared vocabulary: the exceptions the page-mutation engine raises, a
    result type for operations that may raise, and selection of 1-based
    page numbers out of a sequence. */
module Common {

  /** The exceptions that escape the engine. They carry no payload: the
      model only tracks which kind of failure stops an operation. */
  datatype Error =
    | ValueError      // bad argument (`total` < `deleted`, partial merge of all pages)
    | KeyError        // a page number absent from a version's pages
    | IndexError      // a page number outside the PDF's page list
    | AttributeError  // an attribute read on a missing (None) version

  datatype Result<T> = Ok(value: T) | Err(error: Error)

  datatype Option<T> = None | Some(value: T)

  /** A renumbering of one page: page `newNumber` of the result comes from
      page `oldNumber` of the source. */
  datatype PagePair = PagePair(newNumber: int, oldNumber: int)

  function News(pairs: seq<PagePair>): (r: seq<int>)
    ensures |r| == |pairs|
    ensures forall i :: 0 <= i < |pairs| ==> r[i] == pairs[i].newNumber
  {
    seq(|pairs|, i requires 0 <= i < |pairs| => pairs[i].newNumber)
  }

  function Olds(pairs: seq<PagePair>): (r: seq<int>)
    ensures |r| == |pairs|
    ensures forall i :: 0 <= i < |pairs| ==> r[i] == pairs[i].oldNumber
  {
    seq(|pairs|, i requires 0 <= i < |pairs| => pairs[i].oldNumber)
  }

  /** Every element of `nums` is a valid 1-based page number of a
      sequence with `n` entries. */
  predicate AllIn(nums: seq<int>, n: int)
  {
    forall i :: 0 <= i < |nums| ==> 1 <= nums[i] <= n
  }

  predicate StrictlyAscending(s: seq<int>)
  {
    forall i, j :: 0 <= i < j < |s| ==> s[i] < s[j]
  }

  predicate Distinct<T(==)>(s: seq<T>)
  {
    forall i, j :: 0 <= i < j < |s| ==> s[i] != s[j]
  }

  /** The 1-based numbers lo .. hi in ascending order (Python's
      `range(lo, hi + 1)`); empty when hi < lo. */
  function Range(lo: int, hi: int): (r: seq<int>)
    ensures |r| == if hi < lo then 0 else hi - lo + 1
    ensures forall i :: 0 <= i < |r| ==> r[i] == lo + i
  {
    if hi < lo then [] else seq(hi - lo + 1, i requires 0 <= i <= hi - lo => lo + i)
  }

  /** `[xs[n - 1] for n in nums]`: the entries of `xs` at the 1-based
      positions `nums`, in the order of `nums`. */
  function Select<T>(xs: seq<T>, nums: seq<int>): (r: seq<T>)
    requires AllIn(nums, |xs|)
    ensures |r| == |nums|
    ensures forall i :: 0 <= i < |nums| ==> r[i] == xs[nums[i] - 1]
  {
    seq(|nums|, i requires 0 <= i < |nums| => xs[nums[i] - 1])
  }

  lemma SelectAppend<T>(xs: seq<T>, a: seq<int>, b: seq<int>)
    requires AllIn(a, |xs|) && AllIn(b, |xs|)
    ensures AllIn(a + b, |xs|)
    ensures Select(xs, a + b) == Select(xs, a) + Select(xs, b)
  {
    assert AllIn(a + b, |xs|) by {
      forall i | 0 <= i < |a + b| ensures 1 <= (a + b)[i] <= |xs| {
        if i >= |a| { assert (a + b)[i] == b[i - |a|]; }
      }
    }
    var l, r := Select(xs, a + b), Select(xs, a) + Select(xs, b);
    forall i | 0 <= i < |l| ensures l[i] == r[i] {
      if i >= |a| { assert (a + b)[i] == b[i - |a|]; }
    }
  }

  /** Selecting positions 1 .. m in order is the prefix of length m, and
      is possible exactly when there are at least m entries. */
  lemma SelectPrefix<T>(xs: seq<T>, m: nat)
    ensures AllIn(Range(1, m), |xs|) <==> m <= |xs|
    ensures m <= |xs| ==> Select(xs, Range(1, m)) == xs[..m]
  {
    if m > |xs| {
      assert Range(1, m)[|xs|] == |xs| + 1;
    }
  }

  /** Selecting every position in order gives the sequence back. */
  lemma SelectAll<T>(xs: seq<T>)
    ensures AllIn(Range(1, |xs|), |xs|)
    ensures Select(xs, Range(1, |xs|)) == xs
  {
  }
}
