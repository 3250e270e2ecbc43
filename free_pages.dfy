/** The kernel's inventory of free physical pages, as values: the list that
    boot fills, what one newPage or deletePage call does to it, and what a
    whole sequence of calls does. The class UserKernel in module Kernel
    keeps this list in a field; its methods are specified by the functions
    here, and the lemmas here are what those methods promise over time. */
module FreePages {
  import opened JavaInt

  /** What newPage returns when no page is free. */
  const NoPage: int32 := -1

  /** The page numbers 0, 1, ..., n - 1 in ascending order; empty when n <= 0. */
  function Ascending(n: int32): (s: seq<int32>)
    ensures |s| == if n <= 0 then 0 else n as int
    ensures forall i :: 0 <= i < |s| ==> s[i] as int == i
  {
    if n <= 0 then [] else Ascending(n - 1) + [n - 1]
  }

  /** Every page number below n occurs once in Ascending(n), and no other. */
  lemma {:induction false} AscendingCount(n: int32, x: int32)
    ensures multiset(Ascending(n))[x] == if 0 <= x < n then 1 else 0
  {
    if n > 0 {
      AscendingCount(n - 1, x);
      assert multiset(Ascending(n)) == multiset(Ascending(n - 1)) + multiset{n - 1};
    }
  }

  predicate Distinct(s: seq<int32>)
  {
    forall i, j :: 0 <= i < j < |s| ==> s[i] != s[j]
  }

  /** A list in which no page is counted twice has no repeated entry. */
  lemma CountedOnceDistinct(s: seq<int32>)
    requires forall x :: multiset(s)[x] <= 1
    ensures Distinct(s)
  {
    forall i, j | 0 <= i < j < |s|
      ensures s[i] != s[j]
    {
      assert s == s[..j] + s[j..];
      assert s[j] == s[j..][0];
      assert s[i] == s[..j][i];
      assert multiset(s)[s[j]] == multiset(s[..j])[s[j]] + multiset(s[j..])[s[j]];
    }
  }

  /** The outcome of newPage: the page returned and the list left behind. */
  datatype Taken = Taken(page: int32, rest: seq<int32>)

  /** newPage: the head of a non-empty list, or NoPage on an empty one. */
  function TakeFirst(free: seq<int32>): (t: Taken)
    ensures free == [] ==> t.page == NoPage && t.rest == []
    ensures free != [] ==> free == [t.page] + t.rest
  {
    if |free| > 0 then Taken(free[0], free[1..]) else Taken(NoPage, [])
  }

  /** newPage on a list without repeats leaves one without repeats, and the
      page it hands out is no longer free. */
  lemma TakeFirstKeepsDistinct(free: seq<int32>)
    requires Distinct(free)
    ensures Distinct(TakeFirst(free).rest)
    ensures free != [] ==> TakeFirst(free).page !in TakeFirst(free).rest
  {
  }

  /** deletePage appends without looking: the list stays free of repeats
      exactly when the page was not already in it. */
  lemma ReleaseDistinct(free: seq<int32>, x: int32)
    ensures Distinct(free + [x]) <==> Distinct(free) && x !in free
  {
    var s := free + [x];
    if Distinct(s) {
      forall i, j | 0 <= i < j < |free|
        ensures free[i] != free[j]
      {
        assert free[i] == s[i] && free[j] == s[j];
      }
      forall i | 0 <= i < |free|
        ensures free[i] != x
      {
        assert s[i] == free[i] && s[|free|] == x;
      }
    }
  }

  /** A call on the allocator. */
  datatype Call = NewPageCall | DeletePageCall(page: int32)

  /** The free list together with the pages its callers hold: those newPage
      handed out and deletePage has not yet taken back. */
  datatype Pool = Pool(free: seq<int32>, held: multiset<int32>)

  function Step(p: Pool, c: Call): (q: Pool)
  {
    match c
    case NewPageCall =>
      var t := TakeFirst(p.free);
      Pool(t.rest, if p.free == [] then p.held else p.held + multiset{t.page})
    case DeletePageCall(x) =>
      Pool(p.free + [x], p.held - multiset{x})
  }

  /** What newPage returns for each newPage call among calls. */
  function Returned(p: Pool, calls: seq<Call>): (r: seq<int32>)
    decreases |calls|
  {
    if calls == [] then []
    else
      (if calls[0].NewPageCall? then [TakeFirst(p.free).page] else [])
      + Returned(Step(p, calls[0]), calls[1..])
  }

  function Run(p: Pool, calls: seq<Call>): (q: Pool)
    decreases |calls|
  {
    if calls == [] then p else Run(Step(p, calls[0]), calls[1..])
  }

  /** The caller discipline the allocator trusts but does not check: a page
      is given back only while the caller holds it. */
  predicate Permitted(p: Pool, c: Call)
  {
    c.DeletePageCall? ==> c.page in p.held
  }

  predicate HonestRun(p: Pool, calls: seq<Call>)
    decreases |calls|
  {
    calls == [] || (Permitted(p, calls[0]) && HonestRun(Step(p, calls[0]), calls[1..]))
  }

  /** Free and held pages together are exactly the pages 0 .. n-1, each once. */
  ghost predicate Accounted(p: Pool, n: int32)
  {
    multiset(p.free) + p.held == multiset(Ascending(n))
  }

  /** k successive newPage calls. */
  function NewPageCalls(k: nat): (s: seq<Call>)
    ensures |s| == k && forall i :: 0 <= i < k ==> s[i] == NewPageCall
  {
    seq(k, _ => NewPageCall)
  }

  /** The list is a FIFO queue: one newPage call per free page hands the pages
      out in list order and empties the list, and the call after that
      reports exhaustion. */
  lemma {:induction false} DrainInOrder(p: Pool)
    ensures Returned(p, NewPageCalls(|p.free| + 1)) == p.free + [NoPage]
    ensures Run(p, NewPageCalls(|p.free|)).free == []
    decreases |p.free|
  {
    var calls := NewPageCalls(|p.free| + 1);
    if p.free == [] {
      assert calls[1..] == [];
    } else {
      var q := Step(p, NewPageCall);
      assert q.free == p.free[1..];
      assert calls[1..] == NewPageCalls(|q.free| + 1);
      assert NewPageCalls(|p.free|)[1..] == NewPageCalls(|q.free|);
      DrainInOrder(q);
    }
  }

  /** Right after boot with n pages and no deletePage, successive newPage
      calls return 0, 1, ..., n - 1 and then NoPage; with n <= 0 the first
      call already returns NoPage. */
  lemma FreshDrain(n: int32)
    ensures var k := if n <= 0 then 0 else n as int;
      var r := Returned(Pool(Ascending(n), multiset{}), NewPageCalls(k + 1));
      |r| == k + 1 && r[k] == NoPage && forall i :: 0 <= i < k ==> r[i] as int == i
  {
    DrainInOrder(Pool(Ascending(n), multiset{}));
  }

  /** The list order is arrival order, not page order: after page 0 is given
      back behind page 1, newPage returns 1 although 0 is free. */
  lemma NotLowestFirst()
    ensures Step(Pool([1], multiset{0}), DeletePageCall(0)).free == [1, 0]
    ensures TakeFirst([1, 0]).page == 1
  {
  }

  /** Nothing stops a double free: giving a page back twice queues it twice,
      and the next two newPage calls hand the same page to two callers. */
  lemma DoubleFreeHandsOutTwice(x: int32)
    ensures !HonestRun(Pool([], multiset{x}), [DeletePageCall(x), DeletePageCall(x)])
    ensures Returned(Pool([], multiset{x}),
      [DeletePageCall(x), DeletePageCall(x), NewPageCall, NewPageCall]) == [x, x]
  {
    var p0 := Pool([], multiset{x});
    var p1 := Step(p0, DeletePageCall(x));
    assert p1.held == multiset{};
    var p2 := Step(p1, DeletePageCall(x));
    assert p2.free == [x, x];
    var calls := [DeletePageCall(x), DeletePageCall(x), NewPageCall, NewPageCall];
    var p3 := Step(p2, NewPageCall);
    assert p3.free == [x];
    assert Returned(p3, [NewPageCall]) == [x] by {
      assert [NewPageCall][1..] == [];
    }
    assert Returned(p2, [NewPageCall, NewPageCall]) == [x, x] by {
      assert [NewPageCall, NewPageCall][1..] == [NewPageCall];
    }
    assert Returned(p1, calls[1..]) == [x, x] by {
      assert calls[1..][1..] == [NewPageCall, NewPageCall];
    }
  }

  /** Handing out a free page and taking it straight back leaves the same
      pages free and the same pages held. With no page free, newPage returns
      NoPage, and giving that back would queue NoPage, so a free page is needed. */
  lemma NewThenDeleteConserves(p: Pool)
    requires p.free != []
    ensures var q := Run(p, [NewPageCall, DeletePageCall(TakeFirst(p.free).page)]);
      multiset(q.free) == multiset(p.free) && q.held == p.held
  {
    var t := TakeFirst(p.free);
    var calls := [NewPageCall, DeletePageCall(t.page)];
    var q := Step(Step(p, NewPageCall), DeletePageCall(t.page));
    assert calls[1..] == [DeletePageCall(t.page)];
    assert Run(Step(p, NewPageCall), calls[1..]) == q by {
      assert calls[1..][1..] == [];
    }
    assert multiset(t.rest + [t.page]) == multiset([t.page] + t.rest);
  }

  /** One honest call keeps the accounting of pages intact. */
  lemma StepKeepsAccounted(p: Pool, c: Call, n: int32)
    requires Accounted(p, n) && Permitted(p, c)
    ensures Accounted(Step(p, c), n)
  {
  }

  lemma {:induction false} HonestRunKeepsAccounted(p: Pool, calls: seq<Call>, n: int32)
    requires Accounted(p, n) && HonestRun(p, calls)
    ensures Accounted(Run(p, calls), n)
    decreases |calls|
  {
    if calls != [] {
      StepKeepsAccounted(p, calls[0], n);
      HonestRunKeepsAccounted(Step(p, calls[0]), calls[1..], n);
    }
  }

  /** What the accounting guarantees: the free list has no repeats, no page
      is held twice or both held and free, and every page is below n. */
  lemma AccountedMeansExclusive(p: Pool, n: int32)
    requires Accounted(p, n)
    ensures Distinct(p.free)
    ensures forall x :: p.held[x] <= 1
    ensures forall x :: x in p.held ==> x !in p.free && 0 <= x < n
    ensures forall x :: x in p.free ==> 0 <= x < n
  {
    forall x
      ensures multiset(p.free)[x] + p.held[x] == if 0 <= x < n then 1 else 0
    {
      AscendingCount(n, x);
    }
    CountedOnceDistinct(p.free);
  }

  /** No double allocation: starting from boot with n pages, as long as
      callers give back only pages they hold, no page is ever held by two
      callers, held and free at once, or queued twice, and all pages in play
      are below n. */
  lemma NoDoubleAllocation(n: int32, calls: seq<Call>)
    requires HonestRun(Pool(Ascending(n), multiset{}), calls)
    ensures var q := Run(Pool(Ascending(n), multiset{}), calls);
      Distinct(q.free)
      && (forall x :: q.held[x] <= 1)
      && (forall x :: x in q.held ==> x !in q.free && 0 <= x < n)
      && (forall x :: x in q.free ==> 0 <= x < n)
  {
    var p := Pool(Ascending(n), multiset{});
    HonestRunKeepsAccounted(p, calls, n);
    AccountedMeansExclusive(Run(p, calls), n);
  }
}
