/** The end-of-run ranking of `nextTest` in ui.js: collect the tests that counted iterations, sort
    them by throughput, fastest first, and label each one relative to the fastest. */
module Ranking {
  import opened Text
  import opened Registry
  import Format

  /** One gathered result, `{ 'id': test.id, 'hz': test.hz }`. */
  datatype Entry = Entry(id: Id, hz: Hz)

  /** The annotation written into a results cell. */
  datatype Label = Fastest | Slower(percent: int)

  datatype Standing = Standing(id: Id, annotation: Label)

  /** The outcome of the ranking step: nothing when fewer than two tests counted iterations;
      otherwise the sorted results and the labels to write, none when all tied. */
  datatype Ranking = Unranked | Ranked(order: seq<Entry>, standings: seq<Standing>)

  predicate DistinctEntries(s: seq<Entry>) {
    forall i, j :: 0 <= i < j < |s| ==> s[i].id != s[j].id
  }

  predicate SortedDescending(s: seq<Entry>) {
    forall i, j :: 0 <= i < j < |s| ==> s[i].hz >= s[j].hz
  }

  /** The results of the tests with a nonzero count, in registration order. */
  function Gather(tests: seq<Test>): (r: seq<Entry>)
    ensures |r| <= |tests|
    decreases |tests|
  {
    if tests == [] then []
    else
      var t := tests[0];
      (if t.stats.count != 0 then [Entry(t.id, t.stats.hz)] else []) + Gather(tests[1..])
  }

  /** An entry is gathered exactly when some registered test with a nonzero count produced it. */
  lemma {:induction false} GatherMembers(tests: seq<Test>)
    ensures forall e :: e in Gather(tests) <==>
      exists i :: 0 <= i < |tests| && tests[i].stats.count != 0 && e == Entry(tests[i].id, tests[i].stats.hz)
    decreases |tests|
  {
    if tests != [] {
      var rest := tests[1..];
      GatherMembers(rest);
      forall e | e in Gather(tests)
        ensures exists i :: 0 <= i < |tests| && tests[i].stats.count != 0 && e == Entry(tests[i].id, tests[i].stats.hz)
      {
        if e !in Gather(rest) {
          assert e == Entry(tests[0].id, tests[0].stats.hz);
        } else {
          var i :| 0 <= i < |rest| && rest[i].stats.count != 0 && e == Entry(rest[i].id, rest[i].stats.hz);
          assert tests[i + 1] == rest[i];
        }
      }
      forall i | 1 <= i < |tests| && tests[i].stats.count != 0
        ensures Entry(tests[i].id, tests[i].stats.hz) in Gather(tests)
      {
        assert rest[i - 1] == tests[i];
      }
    }
  }

  /** Gathered ids are registered ids. */
  lemma GatherIds(tests: seq<Test>)
    ensures forall e :: e in Gather(tests) ==> e.id in Ids(tests)
  {
    GatherMembers(tests);
    forall e | e in Gather(tests)
      ensures e.id in Ids(tests)
    {
      var i :| 0 <= i < |tests| && e == Entry(tests[i].id, tests[i].stats.hz);
      assert Ids(tests)[i] == e.id;
    }
  }

  /** Gathered ids are distinct when the registered ones are. */
  lemma {:induction false} GatherDistinct(tests: seq<Test>)
    requires DistinctIds(tests)
    ensures DistinctEntries(Gather(tests))
    decreases |tests|
  {
    if tests != [] {
      var rest := tests[1..];
      DistinctIdsTail(tests);
      GatherDistinct(rest);
      GatherMembers(rest);
      forall e | e in Gather(rest)
        ensures e.id != tests[0].id
      {
        var i :| 0 <= i < |rest| && rest[i].stats.count != 0 && e == Entry(rest[i].id, rest[i].stats.hz);
      }
      var g := Gather(tests);
      var head := if tests[0].stats.count != 0 then [Entry(tests[0].id, tests[0].stats.hz)] else [];
      assert g == head + Gather(rest);
      forall i, j | 0 <= i < j < |g|
        ensures g[i].id != g[j].id
      {
        if |head| == 1 && i == 0 {
          assert g[j] in Gather(rest);
        } else {
          assert g[i] == Gather(rest)[i - |head|] && g[j] == Gather(rest)[j - |head|];
        }
      }
    }
  }

  /** Gathering one more test appends its result, if it counted iterations. */
  lemma {:induction false} GatherSnoc(tests: seq<Test>, t: Test)
    ensures Gather(tests + [t]) == Gather(tests) + (if t.stats.count != 0 then [Entry(t.id, t.stats.hz)] else [])
    decreases |tests|
  {
    if tests == [] {
      assert [] + [t] == [t];
    } else {
      assert (tests + [t])[1..] == tests[1..] + [t];
      GatherSnoc(tests[1..], t);
    }
  }

  /** Insert `e` into a list sorted fastest first, ahead of every entry it is at least as fast
      as, so that entries of equal throughput keep their gathering order. */
  function Insert(e: Entry, s: seq<Entry>): (r: seq<Entry>)
    ensures multiset(r) == multiset(s) + multiset{e}
    decreases |s|
  {
    if s == [] || e.hz >= s[0].hz then [e] + s
    else
      assert s == [s[0]] + s[1..];
      [s[0]] + Insert(e, s[1..])
  }

  /** `result.sort(function(a, b) { return b.hz - a.hz; })`, as a stable insertion sort. */
  function SortDescending(s: seq<Entry>): (r: seq<Entry>)
    ensures multiset(r) == multiset(s)
    decreases |s|
  {
    if s == [] then []
    else
      assert s == [s[0]] + s[1..];
      Insert(s[0], SortDescending(s[1..]))
  }

  lemma {:induction false} InsertSorted(e: Entry, s: seq<Entry>)
    requires SortedDescending(s)
    ensures SortedDescending(Insert(e, s))
    decreases |s|
  {
    if s != [] && e.hz < s[0].hz {
      InsertSorted(e, s[1..]);
      var r := Insert(e, s[1..]);
      forall x | x in r
        ensures s[0].hz >= x.hz
      {
        assert x in multiset(r);
        if x != e {
          assert x in multiset(s[1..]);
        }
      }
    }
  }

  lemma {:induction false} InsertDistinct(e: Entry, s: seq<Entry>)
    requires DistinctEntries(s)
    requires forall x :: x in s ==> x.id != e.id
    ensures DistinctEntries(Insert(e, s))
    decreases |s|
  {
    if s != [] && e.hz < s[0].hz {
      InsertDistinct(e, s[1..]);
      var r := Insert(e, s[1..]);
      forall x | x in r
        ensures x.id != s[0].id
      {
        assert x in multiset(r);
        if x != e {
          assert x in multiset(s[1..]);
        }
      }
    }
  }

  /** The sort leaves the results ordered fastest first and loses or invents no result. */
  lemma {:induction false} SortDescendingSpec(s: seq<Entry>)
    ensures SortedDescending(SortDescending(s))
    ensures multiset(SortDescending(s)) == multiset(s) && |SortDescending(s)| == |s|
    decreases |s|
  {
    var r := SortDescending(s);
    assert |r| == |multiset(r)| == |multiset(s)| == |s|;
    if s != [] {
      SortDescendingSpec(s[1..]);
      InsertSorted(s[0], SortDescending(s[1..]));
    }
  }

  /** Sorting results with distinct ids keeps the ids distinct. */
  lemma {:induction false} SortDescendingDistinct(s: seq<Entry>)
    requires DistinctEntries(s)
    ensures DistinctEntries(SortDescending(s))
    decreases |s|
  {
    if s != [] {
      var rest := SortDescending(s[1..]);
      assert DistinctEntries(s[1..]) by {
        forall i, j | 0 <= i < j < |s[1..]| ensures s[1..][i].id != s[1..][j].id {
          assert s[1..][i] == s[i + 1] && s[1..][j] == s[j + 1];
        }
      }
      SortDescendingDistinct(s[1..]);
      forall x | x in rest
        ensures x.id != s[0].id
      {
        assert x in multiset(rest);
        var k :| 0 <= k < |s[1..]| && s[1..][k] == x;
        assert s[k + 1] == x;
      }
      InsertDistinct(s[0], rest);
    }
  }


  /** `Math.floor((1 - hz / fastest) * 100)`. */
  function Percent(hz: Hz, fastest: Hz): int
    requires fastest > 0.0
  {
    ((1.0 - hz / fastest) * 100.0).Floor
  }

  /** A test no faster than the fastest is between 0 and 100 percent slower, and the slower of two
      is at least as many percent slower. */
  lemma PercentBounds(hz: Hz, slower: Hz, fastest: Hz)
    requires fastest > 0.0 && slower <= hz <= fastest
    ensures 0 <= Percent(hz, fastest) <= 100
    ensures Percent(hz, fastest) <= Percent(slower, fastest)
    ensures hz == fastest ==> Percent(hz, fastest) == 0
  {
    DivideMonotone(slower, hz, fastest);
    DivideMonotone(hz, fastest, fastest);
    DivideMonotone(0.0, slower, fastest);
    assert fastest / fastest == 1.0;
    assert 0.0 / fastest == 0.0;
  }

  /** Dividing by a positive number keeps an inequality. */
  lemma DivideMonotone(x: real, y: real, c: real)
    requires c > 0.0 && x <= y
    ensures x / c <= y / c
  {
    var qx, qy := x / c, y / c;
    assert qx * c == x && qy * c == y;
    assert (qy - qx) * c == y - x;
  }

  /** The label of the sorted entry at index `i`: "fastest" for the head only, how much slower
      than the head for the rest. */
  function LabelAt(order: seq<Entry>, i: nat): Label
    requires i < |order| && order[0].hz > 0.0
  {
    if i == 0 then Fastest else Slower(Percent(order[i].hz, order[0].hz))
  }

  /** The labels of the sorted entries from index `i` on, in order. */
  function StandingsFrom(order: seq<Entry>, i: nat): (r: seq<Standing>)
    requires i <= |order| && |order| > 0 && order[0].hz > 0.0
    ensures |r| == |order| - i
    ensures forall j :: i <= j < |order| ==> r[j - i] == Standing(order[j].id, LabelAt(order, j))
    decreases |order| - i
  {
    if i == |order| then [] else [Standing(order[i].id, LabelAt(order, i))] + StandingsFrom(order, i + 1)
  }

  /** The labels of all the sorted entries. */
  function Standings(order: seq<Entry>): seq<Standing>
    requires |order| > 0 && order[0].hz > 0.0
  {
    StandingsFrom(order, 0)
  }

  /** The ranking of the gathered results. */
  function Rank(results: seq<Entry>): (r: Ranking)
    ensures r.Ranked? <==> |results| >= 2
  {
    if |results| <= 1 then Unranked
    else
      var order := SortDescending(results);
      SortDescendingSpec(results);
      var first, last := order[0], order[|order| - 1];
      if first.hz != last.hz then Ranked(order, Standings(order)) else Ranked(order, [])
  }

  /** Lists with the same elements. */
  lemma SameElements(a: seq<Entry>, b: seq<Entry>)
    requires multiset(a) == multiset(b)
    ensures forall x :: x in a <==> x in b
  {
    forall x | x in a
      ensures x in b
    {
      assert x in multiset(a);
    }
    forall x | x in b
      ensures x in a
    {
      assert x in multiset(b);
    }
  }

  /** In a list sorted fastest first, the head and the last entry are equally fast exactly when
      all entries are. */
  lemma EndsTied(order: seq<Entry>)
    requires |order| > 0 && SortedDescending(order)
    ensures order[0].hz == order[|order| - 1].hz <==>
      forall x, y :: x in order && y in order ==> x.hz == y.hz
  {
    var n := |order|;
    if order[0].hz == order[n - 1].hz {
      forall x, y | x in order && y in order
        ensures x.hz == y.hz
      {
        var a :| 0 <= a < n && order[a] == x;
        var b :| 0 <= b < n && order[b] == y;
        assert order[0].hz >= order[a].hz >= order[n - 1].hz;
        assert order[0].hz >= order[b].hz >= order[n - 1].hz;
      }
    } else {
      assert order[0] in order && order[n - 1] in order;
    }
  }

  /** The ranked list is the gathered results sorted fastest first. */
  lemma RankOrder(results: seq<Entry>)
    requires Rank(results).Ranked?
    ensures SortedDescending(Rank(results).order)
    ensures multiset(Rank(results).order) == multiset(results)
    ensures DistinctEntries(results) ==> DistinctEntries(Rank(results).order)
  {
    SortDescendingSpec(results);
    if DistinctEntries(results) {
      SortDescendingDistinct(results);
    }
  }

  /** Labels are written exactly when not every result has the same throughput. */
  lemma RankUnlabelled(results: seq<Entry>)
    requires Rank(results).Ranked?
    ensures Rank(results).standings == [] <==>
      forall x, y :: x in results && y in results ==> x.hz == y.hz
  {
    var order := SortDescending(results);
    SortDescendingSpec(results);
    SameElements(order, results);
    EndsTied(order);
    assert Rank(results).standings == [] <==> order[0].hz == order[|order| - 1].hz;
  }

  /** The labels: one per ranked result in ranked order, "fastest" on the head and on nothing
      else, every other one a whole percentage between 0 and 100 that never decreases down the
      list, and 0 for a result tied with the head. */
  lemma RankLabels(results: seq<Entry>)
    requires Rank(results).Ranked? && Rank(results).standings != []
    ensures var r := Rank(results);
      && |r.standings| == |r.order|
      && (forall i :: 0 <= i < |r.order| ==> r.standings[i].id == r.order[i].id)
      && r.standings[0].annotation == Fastest
      && (forall i :: 1 <= i < |r.order| ==>
            (r.standings[i].annotation.Slower?
             && 0 <= r.standings[i].annotation.percent <= 100
             && (r.order[i].hz == r.order[0].hz ==> r.standings[i].annotation.percent == 0)))
      && (forall i, j :: 1 <= i < j < |r.order| ==>
            r.standings[i].annotation.percent <= r.standings[j].annotation.percent)
  {
    var order := SortDescending(results);
    SortDescendingSpec(results);
    var s := Standings(order);
    var top := order[0].hz;
    forall i | 1 <= i < |order|
      ensures s[i].annotation.Slower? && 0 <= s[i].annotation.percent <= 100
      ensures order[i].hz == top ==> s[i].annotation.percent == 0
    {
      PercentBounds(order[i].hz, order[i].hz, top);
    }
    forall i, j | 1 <= i < j < |order|
      ensures s[i].annotation.percent <= s[j].annotation.percent
    {
      PercentBounds(order[i].hz, order[j].hz, top);
    }
  }

  /** How the labels follow from the ranked list: none when its ends tie, otherwise the labels
      relative to a head that is strictly positive. */
  lemma RankShape(results: seq<Entry>)
    requires Rank(results).Ranked?
    ensures var r := Rank(results);
      && |r.order| >= 2
      && (r.order[0].hz == r.order[|r.order| - 1].hz ==> r.standings == [])
      && (r.order[0].hz != r.order[|r.order| - 1].hz ==>
            r.order[0].hz > 0.0 && r.standings == Standings(r.order))
  {
    SortDescendingSpec(results);
    var order := SortDescending(results);
    assert order[0].hz >= order[|order| - 1].hz;
  }

  /** The labels name the ranked results, one each, in ranked order. */
  lemma StandingIds(results: seq<Entry>)
    requires Rank(results).Ranked? && Rank(results).standings != []
    ensures |Rank(results).standings| == |Rank(results).order|
    ensures forall i :: 0 <= i < |Rank(results).order| ==>
      Rank(results).standings[i].id == Rank(results).order[i].id
  {
  }

  /** Every labelled id belongs to a registered test that counted iterations. */
  lemma RankIdsRegistered(tests: seq<Test>)
    requires Rank(Gather(tests)).Ranked?
    ensures var s := Rank(Gather(tests)).standings;
      forall i :: 0 <= i < |s| ==> s[i].id in Ids(tests) && exists e :: e in Gather(tests) && e.id == s[i].id
  {
    var results := Gather(tests);
    var r := Rank(results);
    if r.standings != [] {
      GatherIds(tests);
      RankOrder(results);
      StandingIds(results);
      forall i | 0 <= i < |r.standings|
        ensures r.standings[i].id in Ids(tests) && exists e :: e in results && e.id == r.standings[i].id
      {
        var e := r.order[i];
        assert e in multiset(r.order);
        assert e in results;
      }
    }
  }

  /** No id is labelled twice when the registered ids are distinct. */
  lemma RankIdsDistinct(tests: seq<Test>)
    requires DistinctIds(tests) && Rank(Gather(tests)).Ranked?
    ensures var s := Rank(Gather(tests)).standings;
      forall i, j :: 0 <= i < j < |s| ==> s[i].id != s[j].id
  {
    var results := Gather(tests);
    if Rank(results).standings != [] {
      GatherDistinct(tests);
      RankOrder(results);
      StandingIds(results);
    }
  }

  /** The text written into the annotation `<span>`. */
  function LabelText(l: Label): string {
    match l
    case Fastest => "fastest"
    case Slower(p) => (if p < 0 then "-" + Format.Decimal(-p) else Format.Decimal(p)) + "% slower"
  }

  /** Throughputs 100, 80 and 50 sort fastest first as they stand. */
  lemma SortExample()
    ensures SortDescending([Entry("a", 100.0), Entry("b", 80.0), Entry("c", 50.0)])
      == [Entry("a", 100.0), Entry("b", 80.0), Entry("c", 50.0)]
  {
    var s := [Entry("a", 100.0), Entry("b", 80.0), Entry("c", 50.0)];
    assert s[1..] == [Entry("b", 80.0), Entry("c", 50.0)];
    assert s[1..][1..] == [Entry("c", 50.0)];
    assert SortDescending([Entry("c", 50.0)]) == [Entry("c", 50.0)];
    assert Insert(Entry("b", 80.0), [Entry("c", 50.0)]) == [Entry("b", 80.0), Entry("c", 50.0)];
    assert SortDescending(s[1..]) == [Entry("b", 80.0), Entry("c", 50.0)];
    assert Insert(Entry("a", 100.0), s[1..]) == s;
  }

  lemma PercentExample()
    ensures Percent(80.0, 100.0) == 20 && Percent(50.0, 100.0) == 50
  {
    assert 80.0 / 100.0 == 0.8;
    assert (1.0 - 0.8) * 100.0 == 20.0;
    assert 50.0 / 100.0 == 0.5;
    assert (1.0 - 0.5) * 100.0 == 50.0;
  }

  /** Throughputs 100, 80 and 50 rank as fastest, 20% slower and 50% slower. */
  lemma RankExample()
    ensures Rank([Entry("a", 100.0), Entry("b", 80.0), Entry("c", 50.0)])
      == Ranked([Entry("a", 100.0), Entry("b", 80.0), Entry("c", 50.0)],
                [Standing("a", Fastest), Standing("b", Slower(20)), Standing("c", Slower(50))])
  {
    var s := [Entry("a", 100.0), Entry("b", 80.0), Entry("c", 50.0)];
    SortExample();
    assert Rank(s) == Ranked(s, Standings(s));
    PercentExample();
    var st := Standings(s);
    assert st[1] == Standing("b", Slower(20));
    assert st[2] == Standing("c", Slower(50));
    assert st == [Standing("a", Fastest), Standing("b", Slower(20)), Standing("c", Slower(50))];
  }

  lemma LabelTextExample()
    ensures LabelText(Slower(20)) == "20% slower"
    ensures LabelText(Fastest) == "fastest"
  {
    assert Format.Decimal(2) == "2";
    assert Format.Decimal(20) == "20";
  }

  /** Two tests with equal throughput are ranked but get no labels; a single one is not ranked. */
  lemma RankTieExample()
    ensures Rank([Entry("a", 100.0), Entry("b", 100.0)]).standings == []
    ensures Rank([Entry("a", 100.0)]) == Unranked
  {
    var s := [Entry("a", 100.0), Entry("b", 100.0)];
    assert s[1..] == [Entry("b", 100.0)];
    assert SortDescending(s[1..]) == [Entry("b", 100.0)];
    assert Insert(Entry("a", 100.0), s[1..]) == s;
    assert SortDescending(s) == s;
  }
}
