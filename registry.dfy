/** The registered tests (`ui.tests`), what the benchmark engine reports about each, lookup by id
    (`getTestById`) and the order in which `runAll` visits them. */
module Registry {
  import opened Text

  /** A test's identifier, the suffix of its `title-<id>` and `results-<id>` elements. */
  type Id = string

  /** A throughput in operations per second; the engine never reports a negative one. */
  type Hz = r: real | 0.0 <= r

  /** What the benchmark engine has written on a test object: the iterations it counted, its
      throughput `hz`, the per-second rate the results cell shows (`Math.round(1 / period)`, already
      rounded) and, when the run failed, the error message logged for it. */
  datatype Stats = Stats(count: nat, hz: Hz, rate: nat, error: Option<string>)

  datatype Test = Test(id: Id, name: string, stats: Stats)

  /** A test that has never been run. */
  const Unmeasured: Stats := Stats(0, 0.0, 0, None)

  function Ids(tests: seq<Test>): seq<Id> {
    seq(|tests|, i requires 0 <= i < |tests| => tests[i].id)
  }

  predicate DistinctIds(tests: seq<Test>) {
    NoDuplicates(Ids(tests))
  }

  /** Without its first test the registry still has distinct ids, none of them the first's. */
  lemma DistinctIdsTail(tests: seq<Test>)
    requires DistinctIds(tests) && tests != []
    ensures DistinctIds(tests[1..])
    ensures forall i :: 0 <= i < |tests[1..]| ==> tests[1..][i].id != tests[0].id
  {
    var rest := tests[1..];
    forall i, j | 0 <= i < j < |rest|
      ensures Ids(rest)[i] != Ids(rest)[j]
    {
      assert Ids(tests)[i + 1] != Ids(tests)[j + 1];
    }
    forall i | 0 <= i < |rest|
      ensures rest[i].id != tests[0].id
    {
      assert Ids(tests)[0] != Ids(tests)[i + 1];
    }
  }

  /** The first registered test whose id is `id`, if any. */
  function Lookup(tests: seq<Test>, id: Id): (r: Option<Test>)
    ensures r.Some? <==> id in Ids(tests)
    ensures r.Some? ==> r.value.id == id && r.value in tests
    decreases |tests|
  {
    if tests == [] then None
    else if tests[0].id == id then assert Ids(tests)[0] == id; Some(tests[0])
    else
      assert Ids(tests) == [tests[0].id] + Ids(tests[1..]);
      Lookup(tests[1..], id)
  }

  /** The test found is the one at the first index carrying the id. */
  lemma {:induction false} LookupFirst(tests: seq<Test>, id: Id, k: nat)
    requires k < |tests| && tests[k].id == id
    requires forall j :: 0 <= j < k ==> tests[j].id != id
    ensures Lookup(tests, id) == Some(tests[k])
    decreases k
  {
    if k > 0 {
      LookupFirst(tests[1..], id, k - 1);
    }
  }

  /** The registry after the engine has written new figures on the test with id `id`. */
  function Update(tests: seq<Test>, id: Id, s: Stats): seq<Test> {
    seq(|tests|, i requires 0 <= i < |tests| => if tests[i].id == id then tests[i].(stats := s) else tests[i])
  }

  /** Updating the figures of one test keeps the ids and every other test, and the test looked up
      by that id then carries the new figures. */
  lemma UpdateSpec(tests: seq<Test>, id: Id, s: Stats)
    requires DistinctIds(tests) && id in Ids(tests)
    ensures Ids(Update(tests, id, s)) == Ids(tests)
    ensures Lookup(Update(tests, id, s), id) == Some(Lookup(tests, id).value.(stats := s))
    ensures forall other :: other != id ==> Lookup(Update(tests, id, s), other) == Lookup(tests, other)
  {
    var u := Update(tests, id, s);
    assert Ids(u) == Ids(tests);
    var k :| 0 <= k < |tests| && tests[k].id == id;
    forall j | 0 <= j < k
      ensures tests[j].id != id
    {
      assert Ids(tests)[j] != Ids(tests)[k];
    }
    LookupFirst(tests, id, k);
    LookupFirst(u, id, k);
    forall other | other != id
      ensures Lookup(u, other) == Lookup(tests, other)
    {
      LookupSame(tests, u, other);
    }
  }

  /** Registries that agree on every test except those carrying `id` agree on lookups of other ids. */
  lemma {:induction false} LookupSame(a: seq<Test>, b: seq<Test>, other: Id)
    requires |a| == |b|
    requires forall i :: 0 <= i < |a| ==> a[i].id == b[i].id && (a[i].id == other ==> a[i] == b[i])
    ensures Lookup(a, other) == Lookup(b, other)
    decreases |a|
  {
    if a != [] {
      LookupSame(a[1..], b[1..], other);
    }
  }

  /** The sequence back to front. */
  function Reversed(s: seq<Id>): (r: seq<Id>)
    ensures |r| == |s|
    decreases |s|
  {
    if s == [] then [] else Reversed(s[1..]) + [s[0]]
  }

  lemma {:induction false} ReversedAt(s: seq<Id>, i: nat)
    requires i < |s|
    ensures Reversed(s)[i] == s[|s| - 1 - i]
    decreases |s|
  {
    if i < |s| - 1 {
      ReversedAt(s[1..], i);
    }
  }

  /** The ids in the order `runAll` visits the registry: registration order, or the reverse when
      the shift key is held. */
  function RunOrder(tests: seq<Test>, reversed: bool): seq<Id> {
    if reversed then Reversed(Ids(tests)) else Ids(tests)
  }

  /** The id `runAll` visits at step `i` is that of the test at index `k`, counted from the back
      when reversed, and is a registered one. */
  lemma RunOrderAt(tests: seq<Test>, reversed: bool, i: nat, k: nat)
    requires i < |tests| && k == if reversed then |tests| - i - 1 else i
    ensures |RunOrder(tests, reversed)| == |tests|
    ensures RunOrder(tests, reversed)[i] == tests[k].id
    ensures tests[k].id in Ids(tests)
  {
    if reversed {
      ReversedAt(Ids(tests), i);
    }
    assert Ids(tests)[k] == tests[k].id;
  }

  /** Either way every registered test is visited exactly once. */
  lemma RunOrderVisitsAll(tests: seq<Test>, reversed: bool)
    requires DistinctIds(tests)
    ensures NoDuplicates(RunOrder(tests, reversed))
    ensures forall id :: id in RunOrder(tests, reversed) <==> id in Ids(tests)
    ensures !reversed ==> RunOrder(tests, reversed) == Ids(tests)
  {
    var o, ids, n := RunOrder(tests, reversed), Ids(tests), |tests|;
    forall i | 0 <= i < n
      ensures o[i] == ids[if reversed then n - i - 1 else i]
    {
      RunOrderAt(tests, reversed, i, if reversed then n - i - 1 else i);
    }
    forall i, j | 0 <= i < j < n
      ensures o[i] != o[j]
    {
      if reversed {
        assert o[i] == ids[n - i - 1] && o[j] == ids[n - j - 1];
      } else {
        assert o[i] == ids[i] && o[j] == ids[j];
      }
    }
    forall k | 0 <= k < n
      ensures ids[k] in o
    {
      var i := if reversed then n - k - 1 else k;
      assert o[i] == ids[k];
    }
  }

  /** The ids of `order` that `queue` does not hold, in `order`'s order. */
  function Unqueued(order: seq<Id>, queue: seq<Id>): seq<Id>
    decreases |order|
  {
    if order == [] then []
    else
      var last := order[|order| - 1];
      Unqueued(order[..|order| - 1], queue) + (if last in queue then [] else [last])
  }

  /** `Unqueued` keeps exactly the ids that are not queued. */
  lemma {:induction false} UnqueuedSpec(order: seq<Id>, queue: seq<Id>)
    ensures forall id :: id in Unqueued(order, queue) <==> id in order && id !in queue
    decreases |order|
  {
    if order != [] {
      var init := order[..|order| - 1];
      UnqueuedSpec(init, queue);
      assert order == init + [order[|order| - 1]];
    }
  }

  /** With nothing queued, `Unqueued` keeps everything, in order. */
  lemma {:induction false} UnqueuedAll(order: seq<Id>)
    ensures Unqueued(order, []) == order
    decreases |order|
  {
    if order != [] {
      var init := order[..|order| - 1];
      UnqueuedAll(init);
      assert order == init + [order[|order| - 1]];
    }
  }
}
