/** `renderTest` of ui.js: which text a test's results cell shows, and the annotation `<span>` the
    ranking adds to a cell. */
module Render {
  import opened Text
  import opened Registry
  import Ranking
  import Format

  /** What `renderTest` writes into a results cell. */
  datatype Display = Error | Running | Pending | Rate(perSecond: nat) | Ready

  /** A results cell: the text `renderTest` wrote, and the ranking annotation appended after it.
      Every `renderTest` replaces the cell's contents, which removes the annotation. */
  datatype Cell = Cell(shown: Display, note: Option<Ranking.Label>)

  /** The priority rule of `renderTest`: an error wins over running, running over being queued,
      being queued over a measured count, and a test with none of these is ready. */
  function Choose(s: Stats, running: bool, queued: bool): (d: Display)
    ensures d == Error <==> s.error.Some?
    ensures d == Running <==> s.error.None? && running
    ensures d == Pending <==> s.error.None? && !running && queued
    ensures d.Rate? <==> s.error.None? && !running && !queued && s.count != 0
    ensures d.Rate? ==> d.perSecond == s.rate
    ensures d == Ready <==> s.error.None? && !running && !queued && s.count == 0
  {
    if s.error.Some? then Error
    else if running then Running
    else if queued then Pending
    else if s.count != 0 then Rate(s.rate)
    else Ready
  }

  /** The cell's `innerHTML` for each display. */
  function CellText(d: Display): string {
    match d
    case Error => "Error"
    case Running => "running&hellip;"
    case Pending => "pending&hellip;"
    case Rate(n) => Format.FormatNumber(n)
    case Ready => "ready"
  }

  /** The text of a cell tells which display it is: no two displays are written alike. */
  lemma CellTextDistinguishes(d1: Display, d2: Display)
    requires CellText(d1) == CellText(d2)
    ensures d1 == d2
  {
    if d1.Rate? {
      Format.FormatNumberStartsWithDigit(d1.perSecond);
    }
    if d2.Rate? {
      Format.FormatNumberStartsWithDigit(d2.perSecond);
    }
    if d1.Rate? && d2.Rate? {
      Format.FormatNumberInjective(d1.perSecond, d2.perSecond);
    }
  }

  /** The cells after the ranking wrote each standing's label into its test's annotation: the
      `<span>` is updated when it exists and appended otherwise, and the cell text stays. A
      standing without a cell is passed over; every ranked test has one in a consistent page. */
  function Annotate(cells: map<Id, Cell>, standings: seq<Ranking.Standing>): (r: map<Id, Cell>)
    ensures r.Keys == cells.Keys
    decreases |standings|
  {
    if standings == [] then cells
    else
      var s := standings[0];
      var next := if s.id in cells then cells[s.id := cells[s.id].(note := Some(s.annotation))] else cells;
      Annotate(next, standings[1..])
  }

  /** With distinct ids, every ranked test's cell carries its own label and keeps its text, and
      the other cells are untouched. */
  lemma {:induction false} AnnotateSpec(cells: map<Id, Cell>, standings: seq<Ranking.Standing>)
    requires forall i :: 0 <= i < |standings| ==> standings[i].id in cells
    requires forall i, j :: 0 <= i < j < |standings| ==> standings[i].id != standings[j].id
    ensures forall i :: 0 <= i < |standings| ==>
      Annotate(cells, standings)[standings[i].id]
        == cells[standings[i].id].(note := Some(standings[i].annotation))
    ensures forall id :: id in cells && (forall i :: 0 <= i < |standings| ==> standings[i].id != id) ==>
      Annotate(cells, standings)[id] == cells[id]
    decreases |standings|
  {
    if standings != [] {
      var s := standings[0];
      var next := cells[s.id := cells[s.id].(note := Some(s.annotation))];
      AnnotateSpec(next, standings[1..]);
      assert forall i :: 1 <= i < |standings| ==> standings[1..][i - 1] == standings[i];
    }
  }
}
