/** The paging arithmetic of the three list handlers: `parseInt(q) || default`, a query's
    `.skip(n).limit(m)` and `Math.ceil(total / limit)`, and the insertion order in which
    `find()` lists a collection. */
module Paging {
  import opened Common

  function Abs(n: int): nat {
    if n < 0 then -n else n
  }

  /** `parseInt(q) || d`: an absent or unparsable value (NaN) and 0 are falsy and give the
      default; any other parsed value, negative ones included, is kept. */
  function OrDefault(q: Option<int>, d: int): (r: int)
    ensures q.None? ==> r == d
    ensures q.Some? && q.value != 0 ==> r == q.value
    ensures q.Some? && q.value == 0 ==> r == d
    ensures d != 0 ==> r != 0
  {
    match q
    case None => d
    case Some(v) => if v == 0 then d else v
  }

  /** `.skip(skip).limit(limit)` applied to a result list. The database refuses a negative
      skip (None); a limit of 0 means no limit and a negative limit counts as its absolute
      value. The window is the run of items starting at `skip`, as long as the limit allows
      and the list has. */
  function Window<T>(items: seq<T>, skip: int, limit: int): (r: Option<seq<T>>)
    ensures r.Some? <==> skip >= 0
    ensures r.Some? ==> forall k :: 0 <= k < |r.value| ==> skip + k < |items| && r.value[k] == items[skip + k]
    ensures r.Some? && limit != 0 ==> |r.value| <= Abs(limit)
    ensures r.Some? ==> skip + |r.value| >= |items| || (limit != 0 && |r.value| == Abs(limit))
  {
    if skip < 0 then None
    else
      var rest := if skip <= |items| then items[skip..] else [];
      var n := if limit == 0 || Abs(limit) > |rest| then |rest| else Abs(limit);
      Some(rest[..n])
  }

  /** `Math.ceil(total / limit)` for a non-zero limit, in both signs. */
  function CeilDiv(total: nat, limit: int): (r: int)
    requires limit != 0
    ensures limit > 0 ==> r >= 0 && (r - 1) * limit < total <= r * limit
    ensures limit < 0 ==> r * limit <= total < (r - 1) * limit
  {
    if limit > 0 then (total + limit - 1) / limit
    else
      var q := total / -limit;
      assert q * -limit <= total < (q + 1) * -limit;
      -q
  }

  /** Page p (from 1) of `items` cut in pages of `limit`. */
  function Page<T>(items: seq<T>, p: nat, limit: nat): seq<T>
    requires p >= 1 && limit > 0
  {
    Window(items, (p - 1) * limit, limit).value
  }

  /** Pages 1 to n, one after the other. */
  function FirstPages<T>(items: seq<T>, n: nat, limit: nat): seq<T>
    requires limit > 0
  {
    if n == 0 then [] else FirstPages(items, n - 1, limit) + Page(items, n, limit)
  }

  function Min(a: int, b: int): int {
    if a <= b then a else b
  }

  /** Page n is the slice of items from (n - 1) * limit to n * limit, cut at the end. */
  lemma PageIsSlice<T>(items: seq<T>, n: nat, limit: nat)
    requires n >= 1 && limit > 0
    ensures Page(items, n, limit) == items[Min((n - 1) * limit, |items|)..Min(n * limit, |items|)]
  {
    assert (n - 1) * limit + limit == n * limit;
    var lo, hi := Min((n - 1) * limit, |items|), Min(n * limit, |items|);
    var page := Page(items, n, limit);
    assert |page| == hi - lo;
    assert forall k :: 0 <= k < |page| ==> page[k] == items[lo..hi][k];
  }

  /** Reading pages 1 to n in turn gives the first n * limit items, no more, no less. */
  lemma {:induction false} FirstPagesArePrefix<T>(items: seq<T>, n: nat, limit: nat)
    requires limit > 0
    ensures FirstPages(items, n, limit) == items[..Min(n * limit, |items|)]
  {
    if n > 0 {
      FirstPagesArePrefix(items, n - 1, limit);
      PageIsSlice(items, n, limit);
      MulMonotone(n - 1, n, limit);
      var lo, hi := Min((n - 1) * limit, |items|), Min(n * limit, |items|);
      assert items[..hi] == items[..lo] + items[lo..hi];
    }
  }

  lemma MulMonotone(a: int, b: int, c: nat)
    requires a <= b
    ensures a * c <= b * c
  {
  }

  /** The pages up to `totalPages` (as the list handlers report it) hold every item once,
      in order; every later page is empty and every page up to it is not. */
  lemma PagesCoverListing<T>(items: seq<T>, limit: nat)
    requires limit > 0
    ensures FirstPages(items, CeilDiv(|items|, limit), limit) == items
    ensures forall p :: 1 <= p <= CeilDiv(|items|, limit) ==> Page(items, p, limit) != []
    ensures forall p :: p > CeilDiv(|items|, limit) ==> Page(items, p, limit) == []
  {
    var n := CeilDiv(|items|, limit);
    assert n >= 0 by {
      if n < 0 { MulMonotone(n, -1, limit); }
    }
    FirstPagesArePrefix(items, n, limit);
    assert Min(n * limit, |items|) == |items|;
    forall p | 1 <= p <= n ensures Page(items, p, limit) != [] {
      MulMonotone(p - 1, n - 1, limit);
      assert |Page(items, p, limit)| > 0;
    }
    forall p | p > n ensures Page(items, p, limit) == [] {
      MulMonotone(n, p - 1, limit);
    }
  }

  /** The ids of a collection below `bound`, in increasing order: the order `find()` lists
      documents in, since ids are handed out in insertion order. */
  function Listing<T>(table: map<Id, T>, bound: nat): (r: seq<Id>)
    ensures forall id :: id in r <==> id in table && id < bound
  {
    if bound == 0 then []
    else Listing(table, bound - 1) + (if bound - 1 in table then [bound - 1] else [])
  }

  /** The listing is in strictly increasing id order, so it holds no id twice. */
  lemma {:induction false} ListingIncreasing<T>(table: map<Id, T>, bound: nat)
    ensures StrictlyIncreasing(Listing(table, bound))
  {
    if bound > 0 {
      ListingIncreasing(table, bound - 1);
      var prev := Listing(table, bound - 1);
      assert forall k :: 0 <= k < |prev| ==> prev[k] in prev;
    }
  }

  /** The documents of a listing. */
  function Rows<T>(table: map<Id, T>, ids: seq<Id>): (r: seq<T>)
    requires forall k :: 0 <= k < |ids| ==> ids[k] in table
    ensures |r| == |ids| && forall k :: 0 <= k < |ids| ==> r[k] == table[ids[k]]
  {
    seq(|ids|, k requires 0 <= k < |ids| => table[ids[k]])
  }

  /** The listing has one entry per document: its length is the size of the collection. */
  lemma {:induction false} ListingCount<T>(table: map<Id, T>, bound: nat)
    requires forall id :: id in table ==> id < bound
    ensures |Listing(table, bound)| == |table|
  {
    ListingCountBelow(table, bound);
    assert (set id | id in table && id < bound) == table.Keys;
  }

  lemma {:induction false} ListingCountBelow<T>(table: map<Id, T>, bound: nat)
    ensures |Listing(table, bound)| == |set id | id in table && id < bound|
  {
    if bound > 0 {
      ListingCountBelow(table, bound - 1);
      var below := set id | id in table && id < bound - 1;
      var all := set id | id in table && id < bound;
      if bound - 1 in table {
        assert all == below + {bound - 1};
        assert bound - 1 !in below;
      } else {
        assert all == below;
      }
    }
  }
}
