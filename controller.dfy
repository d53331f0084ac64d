/** The run-queue controller of ui.js (the `ui` object): registered tests, the queue of tests
    waiting to be timed, the test being timed, the results cells, the error log and the run
    button, driven by `addTest`, `runTest`, `runAll`, `stop`, `nextTest` and the engine's
    `onStop` callback. */
module Controller {
  import opened Text
  import opened Registry
  import Ranking
  import Render
  import ErrorLog
  import Hash
  import Boot

  /** The labels of the run button (`RUN_TEXT`). */
  datatype Button = RunTests | StopTests | RunTestsAgain

  function ButtonText(b: Button): string {
    match b
    case RunTests => "Run tests"
    case StopTests => "Stop tests"
    case RunTestsAgain => "Run tests again"
  }

  /** The figures the engine has written on the registered test `id`. */
  function StatsOf(tests: seq<Test>, id: Id): Stats
    requires id in Ids(tests)
  {
    Lookup(tests, id).value.stats
  }

  /** The error log after `renderTest` of a test with figures `s`: its error, if any, logged once. */
  function Report(errors: seq<string>, s: Stats): seq<string> {
    if s.error.Some? then ErrorLog.Logged(errors, s.error.value) else errors
  }

  /** The cells after the end-of-run ranking of `tests`. */
  function RankedCells(tests: seq<Test>, cells: map<Id, Render.Cell>): map<Id, Render.Cell> {
    var r := Ranking.Rank(Ranking.Gather(tests));
    if r.Ranked? then Render.Annotate(cells, r.standings) else cells
  }

  /** The run button after the end-of-run ranking: "Run tests again" once at least two tests have
      results, as it was otherwise. */
  function RankedButton(tests: seq<Test>, button: Button): Button {
    if Ranking.Rank(Ranking.Gather(tests)).Ranked? then RunTestsAgain else button
  }

  /** After the ranking every labelled test's cell carries its label and keeps its text, and the
      cell of a test that counted no iterations is untouched. */
  lemma RankedCellsSpec(tests: seq<Test>, cells: map<Id, Render.Cell>)
    requires DistinctIds(tests) && forall id :: id in Ids(tests) ==> id in cells
    ensures RankedCells(tests, cells).Keys == cells.Keys
    ensures var r := Ranking.Rank(Ranking.Gather(tests));
      r.Ranked? ==> forall i :: 0 <= i < |r.standings| ==>
        r.standings[i].id in cells &&
        RankedCells(tests, cells)[r.standings[i].id]
          == cells[r.standings[i].id].(note := Some(r.standings[i].annotation))
    ensures forall id :: id in cells && (forall e :: e in Ranking.Gather(tests) ==> e.id != id) ==>
      RankedCells(tests, cells)[id] == cells[id]
  {
    var r := Ranking.Rank(Ranking.Gather(tests));
    if r.Ranked? {
      Ranking.RankIdsRegistered(tests);
      Ranking.RankIdsDistinct(tests);
      Render.AnnotateSpec(cells, r.standings);
    }
  }

  /** The cells after `renderTest` of each id of `ids` in turn, none of them queued any more. */
  function Redrawn(cells: map<Id, Render.Cell>, tests: seq<Test>, current: Option<Id>, ids: seq<Id>): map<Id, Render.Cell>
    requires forall i :: 0 <= i < |ids| ==> ids[i] in Ids(tests)
    decreases |ids|
  {
    if ids == [] then cells
    else
      var id := ids[|ids| - 1];
      Redrawn(cells, tests, current, ids[..|ids| - 1])[id := Render.Cell(Render.Choose(StatsOf(tests, id), current == Some(id), false), None)]
  }

  /** Each redrawn cell shows its test as no longer queued and without annotation; every other
      cell is untouched. */
  lemma {:induction false} RedrawnSpec(cells: map<Id, Render.Cell>, tests: seq<Test>, current: Option<Id>, ids: seq<Id>)
    requires forall i :: 0 <= i < |ids| ==> ids[i] in Ids(tests)
    ensures forall id :: id in Redrawn(cells, tests, current, ids) <==> id in cells || id in ids
    ensures forall k :: 0 <= k < |ids| ==>
      Redrawn(cells, tests, current, ids)[ids[k]]
        == Render.Cell(Render.Choose(StatsOf(tests, ids[k]), current == Some(ids[k]), false), None)
    ensures forall id :: id in cells && id !in ids ==> Redrawn(cells, tests, current, ids)[id] == cells[id]
    decreases |ids|
  {
    if ids != [] {
      var init := ids[..|ids| - 1];
      RedrawnSpec(cells, tests, current, init);
      assert ids == init + [ids[|ids| - 1]];
    }
  }

  /** The error log after `renderTest` of each id of `ids` in turn. */
  function ReportAll(errors: seq<string>, tests: seq<Test>, ids: seq<Id>): seq<string>
    requires forall i :: 0 <= i < |ids| ==> ids[i] in Ids(tests)
    decreases |ids|
  {
    if ids == [] then errors
    else Report(ReportAll(errors, tests, ids[..|ids| - 1]), StatsOf(tests, ids[|ids| - 1]))
  }

  /** Redrawing keeps every logged message and adds exactly the errors of the redrawn tests, once
      each. */
  lemma {:induction false} ReportAllSpec(errors: seq<string>, tests: seq<Test>, ids: seq<Id>)
    requires forall i :: 0 <= i < |ids| ==> ids[i] in Ids(tests)
    ensures errors <= ReportAll(errors, tests, ids)
    ensures forall e :: e in ReportAll(errors, tests, ids) <==>
      e in errors || exists k :: 0 <= k < |ids| && StatsOf(tests, ids[k]).error == Some(e)
    ensures NoDuplicates(errors) ==> NoDuplicates(ReportAll(errors, tests, ids))
    decreases |ids|
  {
    if ids != [] {
      var init := ids[..|ids| - 1];
      ReportAllSpec(errors, tests, init);
      var last := |ids| - 1;
      forall e | e in ReportAll(errors, tests, ids)
        ensures e in errors || exists k :: 0 <= k < |ids| && StatsOf(tests, ids[k]).error == Some(e)
      {
        if e !in ReportAll(errors, tests, init) {
          assert StatsOf(tests, ids[last]).error == Some(e);
        } else if e !in errors {
          var k :| 0 <= k < |init| && StatsOf(tests, init[k]).error == Some(e);
          assert ids[k] == init[k];
        }
      }
      forall e | e in errors || exists k :: 0 <= k < |ids| && StatsOf(tests, ids[k]).error == Some(e)
        ensures e in ReportAll(errors, tests, ids)
      {
        if e !in errors {
          var k :| 0 <= k < |ids| && StatsOf(tests, ids[k]).error == Some(e);
          if k < last {
            assert init[k] == ids[k];
          }
        }
      }
    }
  }

  /** The tests still to be timed, the running one first. */
  function Waiting(current: Option<Id>, queue: seq<Id>): seq<Id> {
    (if current.Some? then [current.value] else []) + queue
  }

  /** The test being timed and the queue after `runTest(id)`, on a page where a test waits only
      while another one is timed: an id already queued changes nothing; any other joins the back
      of the queue, and starts at once when nothing was being timed. */
  function Enqueued(current: Option<Id>, queue: seq<Id>, id: Id): (Option<Id>, seq<Id>) {
    if id in queue then (current, queue)
    else if current.Some? then (current, queue + [id])
    else (Some(id), [])
  }

  /** `runTest` adds an id to the tests still to be timed exactly when it was not queued, and
      keeps a test waiting only while another one is timed. */
  lemma EnqueuedWaiting(current: Option<Id>, queue: seq<Id>, id: Id)
    requires current.None? ==> queue == []
    ensures var (current', queue') := Enqueued(current, queue, id);
      && Waiting(current', queue') == Waiting(current, queue) + (if id in queue then [] else [id])
      && (current'.None? ==> queue' == [])
  {
    if id !in queue && current.None? {
      assert Waiting(current, queue) == [];
    }
  }

  /** The test being timed and the queue after `runTest` of each id of `ids` in turn. */
  function Visited(current: Option<Id>, queue: seq<Id>, ids: seq<Id>): (Option<Id>, seq<Id>)
    decreases |ids|
  {
    if ids == [] then (current, queue)
    else
      var (current', queue') := Visited(current, queue, ids[..|ids| - 1]);
      Enqueued(current', queue', ids[|ids| - 1])
  }

  /** Visiting one more id is one more `runTest`. */
  lemma VisitedStep(current: Option<Id>, queue: seq<Id>, ids: seq<Id>, i: nat)
    requires i < |ids|
    ensures var (current', queue') := Visited(current, queue, ids[..i]);
      Visited(current, queue, ids[..i + 1]) == Enqueued(current', queue', ids[i])
  {
    assert ids[..i + 1][..i] == ids[..i];
  }

  /** `runTest` of distinct ids in turn: those not queued before wait, in that order, behind the
      tests that waited before; a test being timed before is still being timed, with them
      queued behind the old queue; and a test waits only while another one is timed. */
  lemma {:induction false} VisitedWaiting(current: Option<Id>, queue: seq<Id>, ids: seq<Id>)
    requires current.None? ==> queue == []
    requires NoDuplicates(ids)
    ensures var (current', queue') := Visited(current, queue, ids);
      && Waiting(current', queue') == Waiting(current, queue) + Unqueued(ids, queue)
      && (current.Some? ==> current' == current && queue' == queue + Unqueued(ids, queue))
      && (current'.None? ==> queue' == [])
    decreases |ids|
  {
    if ids != [] {
      var init, last := ids[..|ids| - 1], ids[|ids| - 1];
      assert NoDuplicates(init) by {
        forall i, j | 0 <= i < j < |init| ensures init[i] != init[j] {
          assert init[i] == ids[i] && init[j] == ids[j];
        }
      }
      VisitedWaiting(current, queue, init);
      var (c, q) := Visited(current, queue, init);
      var u := Unqueued(init, queue);
      assert last !in init by {
        forall j | 0 <= j < |init| ensures init[j] != last {
          assert init[j] == ids[j];
        }
      }
      UnqueuedSpec(init, queue);
      assert ids == init + [last];
      assert last in q <==> last in queue by {
        if current.None? {
          assert Waiting(c, q) == u;
          assert q <= Waiting(c, q) || q == Waiting(c, q)[1..];
        }
      }
      var step := if last in queue then [] else [last];
      assert Unqueued(ids, queue) == u + step;
      EnqueuedWaiting(c, q, last);
      assert Waiting(c, q) + step == Waiting(current, queue) + (u + step);
      assert q + step == queue + (u + step) || current.None?;
    }
  }

  /** What `runAll` leaves to be timed: every registered test not queued before, in run order,
      behind the tests that waited before; from an idle page, exactly the run order. */
  lemma RunAllWaiting(current: Option<Id>, queue: seq<Id>, tests: seq<Test>, reversed: bool)
    requires DistinctIds(tests) && (current.None? ==> queue == [])
    ensures var (current', queue') := Visited(current, queue, RunOrder(tests, reversed));
      && Waiting(current', queue') == Waiting(current, queue) + Unqueued(RunOrder(tests, reversed), queue)
      && (current.Some? ==> current' == current && queue' == queue + Unqueued(RunOrder(tests, reversed), queue))
      && (current.None? ==> Waiting(current', queue') == RunOrder(tests, reversed))
  {
    var order := RunOrder(tests, reversed);
    RunOrderVisitsAll(tests, reversed);
    VisitedWaiting(current, queue, order);
    UnqueuedAll(order);
  }

  class Ui {
    /** `ui.tests`, in registration order. */
    var tests: seq<Test>
    /** `ui.queue`: the tests waiting to be timed, front first. */
    var queue: seq<Id>
    /** `ui.currentTest`: the test being timed; the engine's `running` flag is set on it alone. */
    var current: Option<Id>
    /** `cache.errors`: the messages shown in the error box. */
    var errors: seq<string>
    /** `ui.params`. */
    var params: Hash.Params
    /** The `results-<id>` cells. */
    var cells: map<Id, Render.Cell>
    var button: Button
    /** The text of the `status` element. */
    var status: string

    /** Every id is registered once; queued and running ids are registered; no id is queued
        twice and no message is logged twice. */
    ghost predicate Registered()
      reads this
    {
      && DistinctIds(tests)
      && (forall i :: 0 <= i < |queue| ==> queue[i] in Ids(tests))
      && NoDuplicates(queue)
      && (current.Some? ==> current.value in Ids(tests))
      && NoDuplicates(errors)
    }

    /** ... and every registered test has its results cell. */
    ghost predicate Consistent()
      reads this
    {
      Registered() && forall id :: id in Ids(tests) ==> id in cells
    }

    /** Between two events: a test waits in the queue only while another one is being timed. */
    ghost predicate Valid()
      reads this
    {
      Consistent() && (current.None? ==> queue == [])
    }

    /** The tests still to be timed, the running one first. */
    ghost function Line(): seq<Id>
      reads this
    {
      Waiting(current, queue)
    }

    /** The page as the script leaves it: nothing registered, queued or logged, and the
        parameters of the fragment `hash` parsed. The run button's first label and the empty
        status line come from the page's HTML, not from the script, and are assumed here. */
    constructor(hash: string)
      ensures tests == [] && queue == [] && current == None && errors == [] && cells == map[]
      ensures button == RunTests && status == ""
      ensures forall key :: Hash.Get(params, key) == Hash.Param(hash, key)
      ensures Valid()
    {
      tests, queue, current, errors := [], [], None, [];
      params, cells, button, status := map[], map[], RunTests, "";
      new;
      ParseHash(hash);
    }

    /** `parseHash`: after it, `params` holds for every key what the first piece of the fragment
        carrying that key says, because the countdown loop lets earlier pieces overwrite later
        ones. */
    method ParseHash(hash: string)
      modifies this`params
      ensures forall key :: Hash.Get(params, key) == Hash.Param(hash, key)
    {
      var hashes := Split(Hash.Fragment(hash), '&');
      var length := |hashes|;
      var p: Hash.Params := map[];
      if hashes[0] != "" {
        while length > 0
          invariant 0 <= length <= |hashes|
          invariant forall key :: Hash.Get(p, key) == Hash.FirstValue(hashes[length..], key)
          decreases length
        {
          length := length - 1;
          var pair := Split(hashes[length], '=');
          p := p[pair[0] := if |pair| > 1 then Some(pair[1]) else None];
          assert hashes[length..][1..] == hashes[length + 1..];
        }
      }
      params := p;
    }

    /** `getTestById`: the first registered test with that id, or nothing. */
    method GetTestById(id: Id) returns (r: Option<Test>)
      ensures r == Lookup(tests, id)
    {
      var i := 0;
      while i < |tests|
        invariant 0 <= i <= |tests|
        invariant forall j :: 0 <= j < i ==> tests[j].id != id
        decreases |tests| - i
      {
        if tests[i].id == id {
          LookupFirst(tests, id, i);
          return Some(tests[i]);
        }
        i := i + 1;
      }
      assert id !in Ids(tests);
      return None;
    }

    /** `logError`: clear the log, or append a message not logged yet. */
    method LogError(request: ErrorLog.Request)
      modifies this`errors
      ensures errors == ErrorLog.Apply(old(errors), request)
    {
      match request
      case Clear =>
        errors := [];
      case Append(text) =>
        var message := ErrorLog.MessageOf(text);
        if message !in errors {
          errors := errors + [message];
        }
    }

    /** `renderTest`: the cell of `id` shows what the priority rule chooses for its figures and
        its state, its annotation is gone, and its error, if any, is logged. */
    method RenderTest(id: Id)
      requires Registered() && id in Ids(tests)
      modifies this`cells, this`errors
      ensures Registered()
      ensures cells == old(cells)[id := Render.Cell(Render.Choose(StatsOf(tests, id), current == Some(id), id in queue), None)]
      ensures errors == Report(old(errors), StatsOf(tests, id))
    {
      var test := GetTestById(id);
      var s := test.value.stats;
      cells := cells[id := Render.Cell(Render.Choose(s, current == Some(id), id in queue), None)];
      if s.error.Some? {
        LogError(ErrorLog.Append(Some(s.error.value)));
      }
    }

    /** `addTest`: register a new test, never run, whose cell then reads "ready". */
    method AddTest(name: string, id: Id)
      requires Consistent() && id !in Ids(tests)
      modifies this`tests, this`cells, this`errors
      ensures Consistent()
      ensures old(Valid()) ==> Valid()
      ensures tests == old(tests) + [Test(id, name, Unmeasured)]
      ensures cells == old(cells)[id := Render.Cell(Render.Ready, None)]
      ensures errors == old(errors)
    {
      ghost var ids := Ids(tests);
      tests := tests + [Test(id, name, Unmeasured)];
      assert Ids(tests) == ids + [id];
      assert current != Some(id) && id !in queue;
      forall j | 0 <= j < |tests| - 1
        ensures tests[j].id != id
      {
        assert tests[j].id == ids[j];
      }
      LookupFirst(tests, id, |tests| - 1);
      RenderTest(id);
    }

    /** `nextTest`: nothing while a test is being timed; otherwise start the front of the queue;
        with an empty queue, rank the results. */
    method NextTest()
      requires Consistent()
      modifies this`queue, this`current, this`cells, this`button
      ensures Valid()
      ensures Line() == old(Line())
      ensures old(current).Some? ==>
        queue == old(queue) && current == old(current) && cells == old(cells) && button == old(button)
      ensures old(current).None? && old(queue) != [] ==>
        current == Some(old(queue)[0]) && queue == old(queue)[1..] && cells == old(cells) && button == old(button)
      ensures old(current).None? && old(queue) == [] ==>
        current == None && queue == [] && cells == RankedCells(tests, old(cells)) && button == RankedButton(tests, old(button))
    {
      if current.Some? {
      } else if queue != [] {
        current := Some(queue[0]);
        queue := queue[1..];
      } else {
        ShowRanking();
      }
    }

    /** The ranking branch of `nextTest`: gather, sort and label the results, and offer to run
        the tests again, when at least two tests counted iterations. */
    method ShowRanking()
      modifies this`cells, this`button
      ensures cells == RankedCells(tests, old(cells)) && button == RankedButton(tests, old(button))
    {
      var results := GatherResults();
      var r := Ranking.Rank(results);
      ghost var c0 := cells;
      assert RankedCells(tests, c0) == if r.Ranked? then Render.Annotate(c0, r.standings) else c0;
      assert RankedButton(tests, button) == if r.Ranked? then RunTestsAgain else button;
      if r.Ranked? {
        var order := r.order;
        Ranking.RankShape(results);
        if order[0].hz != order[|order| - 1].hz {
          assert r.standings == Ranking.Standings(order);
          WriteLabels(order);
          assert cells == Render.Annotate(c0, r.standings);
        } else {
          assert Render.Annotate(c0, r.standings) == c0;
        }
        button := RunTestsAgain;
      }
    }

    /** The gathering loop of `nextTest`: the results of the tests that counted iterations. */
    method GatherResults() returns (results: seq<Ranking.Entry>)
      ensures results == Ranking.Gather(tests)
    {
      results := [];
      var i := 0;
      while i < |tests|
        invariant 0 <= i <= |tests|
        invariant results == Ranking.Gather(tests[..i])
        decreases |tests| - i
      {
        var test := tests[i];
        Ranking.GatherSnoc(tests[..i], test);
        assert tests[..i + 1] == tests[..i] + [test];
        if test.stats.count != 0 {
          results := results + [Ranking.Entry(test.id, test.stats.hz)];
        }
        i := i + 1;
      }
      assert tests[..|tests|] == tests;
    }

    /** The labelling loop of `nextTest`: "fastest" on the head of the sorted results and
        `floor((1 - hz / first.hz) * 100)`% slower on every other one. */
    method WriteLabels(order: seq<Ranking.Entry>)
      requires |order| > 0 && order[0].hz > 0.0
      modifies this`cells
      ensures cells == Render.Annotate(old(cells), Ranking.Standings(order))
    {
      var first := order[0];
      var i := 0;
      while i < |order|
        invariant 0 <= i <= |order|
        invariant Render.Annotate(cells, Ranking.StandingsFrom(order, i)) == Render.Annotate(old(cells), Ranking.Standings(order))
        decreases |order| - i
      {
        var test := order[i];
        var annotation := if i == 0 then Ranking.Fastest else Ranking.Slower(Ranking.Percent(test.hz, first.hz));
        assert Ranking.StandingsFrom(order, i) == [Ranking.Standing(test.id, annotation)] + Ranking.StandingsFrom(order, i + 1);
        if test.id in cells {
          cells := cells[test.id := cells[test.id].(note := Some(annotation))];
        }
        i := i + 1;
      }
    }

    /** `runTest`: a test already queued changes nothing; any other test clears the error log,
        joins the back of the queue, is shown as pending (or running, when it is the one being
        timed) and the queue advances. The queue grows by one id, or the test starts at once
        when nothing was being timed. */
    method RunTest(id: Id)
      requires Valid() && id in Ids(tests)
      modifies this`queue, this`current, this`errors, this`cells, this`button
      ensures Valid() && button == old(button)
      ensures (current, queue) == Enqueued(old(current), old(queue), id)
      ensures id in old(queue) ==> errors == old(errors) && cells == old(cells)
      ensures id !in old(queue) ==>
        && errors == Report([], StatsOf(tests, id))
        && cells == old(cells)[id := Render.Cell(Render.Choose(StatsOf(tests, id), old(current) == Some(id), true), None)]
    {
      if id !in queue {
        LogError(ErrorLog.Clear);
        queue := queue + [id];
        RenderTest(id);
        NextTest();
      }
    }

    /** `stop`: the run button reads "Run tests" again and the queue is drained, each test taken
        off it re-rendered as no longer queued; the test being timed is left to finish. */
    method Stop()
      requires Consistent()
      modifies this`queue, this`cells, this`errors, this`button
      ensures Valid() && queue == [] && button == RunTests
      ensures cells == Redrawn(old(cells), tests, current, old(queue))
      ensures errors == ReportAll(old(errors), tests, old(queue))
    {
      button := RunTests;
      ghost var q0, c0, e0 := queue, cells, errors;
      ghost var k := 0;
      while queue != []
        invariant 0 <= k <= |q0| && queue == q0[k..]
        invariant Registered() && button == RunTests
        invariant cells == Redrawn(c0, tests, current, q0[..k])
        invariant errors == ReportAll(e0, tests, q0[..k])
        decreases |queue|
      {
        var id := queue[0];
        queue := queue[1..];
        assert id !in queue by {
          assert id == q0[k] && queue == q0[k + 1..];
          forall j | k + 1 <= j < |q0| ensures q0[j] != id {}
        }
        RenderTest(id);
        assert q0[..k + 1][..k] == q0[..k];
        k := k + 1;
      }
      assert q0[..k] == q0;
      RedrawnSpec(c0, tests, current, q0);
    }

    /** `runAll`: the run button reads "Stop tests" and every registered test not queued yet
        joins the queue, in registration order, or in reverse order when the shift key is held.
        Started from an idle page, the tests then wait exactly in that order. */
    method RunAll(reversed: bool)
      requires Valid()
      modifies this`queue, this`current, this`errors, this`cells, this`button
      ensures Valid() && button == StopTests
      ensures (current, queue) == Visited(old(current), old(queue), RunOrder(tests, reversed))
    {
      button := StopTests;
      var length := |tests|;
      ghost var order := RunOrder(tests, reversed);
      ghost var q0, c0 := queue, current;
      assert order[..0] == [];
      var i := 0;
      while i < length
        invariant 0 <= i <= length == |tests|
        invariant Valid() && button == StopTests
        invariant (current, queue) == Visited(c0, q0, order[..i])
        decreases length - i
      {
        var k := if reversed then length - i - 1 else i;
        var id := tests[k].id;
        RunOrderAt(tests, reversed, i, k);
        VisitedStep(c0, q0, order, i);
        RunTest(id);
        i := i + 1;
      }
      assert order[..length] == order;
    }

    /** The engine's `onStop` callback: the finished test's final figures are recorded, the status
        line says the run is done, nothing is being timed any more and the queue advances, ranking
        the results when it is empty. */
    method OnStop(id: Id, s: Stats)
      requires Consistent() && id in Ids(tests)
      modifies this`tests, this`status, this`current, this`queue, this`cells, this`button
      ensures Valid()
      ensures tests == Update(old(tests), id, s) && id in Ids(tests) && StatsOf(tests, id) == s
      ensures status == "Done. Ready to run tests again."
      ensures Line() == old(queue)
      ensures old(queue) == [] ==> cells == RankedCells(tests, old(cells)) && button == RankedButton(tests, old(button))
      ensures old(queue) != [] ==> cells == old(cells) && button == old(button)
    {
      UpdateSpec(tests, id, s);
      tests := Update(tests, id, s);
      status := "Done. Ready to run tests again.";
      current := None;
      NextTest();
    }

    /** `onRun`, the run button's handler: "Stop tests" stops the run, any other label runs all
        tests, backwards when the shift key is held. */
    method OnRun(reversed: bool)
      requires Valid()
      modifies this`queue, this`current, this`errors, this`cells, this`button
      ensures Valid()
      ensures old(button) == StopTests ==>
        && queue == [] && current == old(current) && button == RunTests
        && cells == Redrawn(old(cells), tests, current, old(queue))
        && errors == ReportAll(old(errors), tests, old(queue))
      ensures old(button) != StopTests ==>
        button == StopTests && (current, queue) == Visited(old(current), old(queue), RunOrder(tests, reversed))
    {
      if ButtonText(button) == ButtonText(StopTests) {
        Stop();
      } else {
        RunAll(reversed);
      }
    }

    /** The auto-run step of `onLoad`, with the slice bound corrected: a page opened on a fragment
        beginning "run" presses the run button; any other page is left as it is. */
    method OnLoad(hash: string)
      requires Valid()
      modifies this`queue, this`current, this`errors, this`cells, this`button
      ensures Valid()
      ensures !Boot.AutoRun(hash) ==>
        queue == old(queue) && current == old(current) && errors == old(errors) && cells == old(cells) && button == old(button)
      ensures Boot.AutoRun(hash) && old(button) != StopTests ==>
        button == StopTests && (current, queue) == Visited(old(current), old(queue), RunOrder(tests, false))
      ensures Boot.AutoRun(hash) && old(button) == StopTests ==> queue == [] && button == RunTests
    {
      if Boot.AutoRun(hash) {
        OnRun(false);
      }
    }
  }
}
