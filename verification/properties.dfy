/** Properties that relate several steps of the engine: the record invariant
    and its preservation, the restore round trip, the stability of a repeated
    refresh, and how the threshold decides the final state. */
module Properties {
  import opened Wrappers
  import opened Config
  import opened Records
  import opened Engine
  import opened Monitor

  /** Initialisation establishes the record invariant for the table's markup. */
  lemma InitTableValid(src: SourceTable, m: Measure, containerPresent: bool, opts: Options)
    requires InitTable(src, m, containerPresent, opts).Success?
    ensures Valid(InitTable(src, m, containerPresent, opts).value, src.html, opts)
  {
  }

  /** A refresh keeps the record invariant, whatever it does. */
  lemma RefreshTableValid(rec: TableRecord, html: string, m: Measure, opts: Options)
    requires Valid(rec, html, opts)
    ensures Valid(RefreshTable(rec, m, opts).record, html, opts)
  {
  }

  /** A toggle keeps the record invariant, even on a table never built. */
  lemma ToggleValid(rec: TableRecord, html: string, opts: Options)
    requires Valid(rec, html, opts)
    ensures Valid(Toggle(rec), html, opts)
  {
  }

  /** Toggling twice gives back the record, for any record whose display
      agrees with its state. */
  lemma ToggleTwice(rec: TableRecord)
    requires rec.rendered == LiveSlot(rec)
    ensures Toggle(Toggle(rec)) == rec
  {
  }

  /** Toggling every table twice gives back every record. */
  lemma RestoreAllTwice(recs: seq<TableRecord>)
    requires forall i :: 0 <= i < |recs| ==> recs[i].rendered == LiveSlot(recs[i])
    ensures Restore(recs, None).Success?
    ensures Restore(Restore(recs, None).value, None) == Success(recs)
  {
    var once := Restore(recs, None).value;
    var twice := Restore(once, None).value;
    forall i | 0 <= i < |recs|
      ensures twice[i] == recs[i]
    {
      ToggleTwice(recs[i]);
    }
    assert twice == recs;
  }

  /** Whenever a refresh restores a table that satisfies the invariant, the
      displayed markup is the markup the table had when it was found. */
  lemma RestoreShowsOriginal(rec: TableRecord, html: string, m: Measure, opts: Options)
    requires Valid(rec, html, opts)
    requires RefreshTable(rec, m, opts).action.Restored?
    ensures RefreshTable(rec, m, opts).record.rendered == Html(html)
    ensures !RefreshTable(rec, m, opts).record.isResponsible
  {
  }

  /** The round trip: a table that overflows its container at initialisation
      is built; a later refresh in which the table fits and the container is
      wider than the threshold restores it, byte for byte, to the markup
      captured at initialisation. */
  lemma RoundTrip(src: SourceTable, m1: Measure, m2: Measure, opts: Options)
    requires InitTable(src, m1, true, opts).Success?
    requires 0 <= m1.containerWidth < m1.tableWidth
    requires m2.tableWidth <= m2.containerWidth
    requires m1.tableWidth < m2.containerWidth
    ensures var rec := InitTable(src, m1, true, opts).value;
      && rec.isResponsible
      && RefreshTable(rec, m2, opts).action == Restored
      && RefreshTable(rec, m2, opts).record.rendered == Html(src.html)
  {
    InitTableValid(src, m1, true, opts);
  }

  /** After a refresh that did not fail, the state is decided by the threshold
      alone: a threshold above the container width leaves the table
      responsive, a non-zero one below it leaves it original. */
  lemma RefreshSettles(rec: TableRecord, m: Measure, opts: Options)
    requires !RefreshTable(rec, m, opts).action.BuildFailed?
    ensures var r := RefreshTable(rec, m, opts).record;
      r.minWidth != 0 && r.minWidth != r.container.width ==>
        r.isResponsible == (r.minWidth > r.container.width)
  {
  }

  /** Refreshing twice with the same measurements: the second refresh
      changes no record, and it either writes nothing or puts back the
      responsible markup that is already displayed, never builds nor
      restores. After a build or a splice, the second refresh splices
      again: the displayed markup is written once more. */
  lemma RefreshTwice(rec: TableRecord, html: string, m: Measure, opts: Options)
    requires Valid(rec, html, opts)
    ensures var first := RefreshTable(rec, m, opts);
      var second := RefreshTable(first.record, m, opts);
      && second.record == first.record
      && (first.action.BuildFailed? ==> second.action == first.action)
      && (!first.action.BuildFailed? ==> second.action.Spliced? || second.action.Kept?)
      && ((first.action.Built? || first.action.Spliced?) ==> second.action.Spliced?)
  {
  }

  /** The threshold is not monotone: on a responsive table whose stacked
      layout of width `s` overflows a container of width `c1`, the threshold
      drops from `w` to `s`; a next container width `c2` between `s` and the
      original width `w` then restores the original layout, although it is
      narrower than the threshold observed before. */
  lemma ThresholdDrops(rec: TableRecord, html: string, opts: Options, s: int, c1: int, c2: int)
    requires Valid(rec, html, opts)
    requires rec.container.present && rec.isResponsible
    requires 0 <= c1 < s < c2 < rec.minWidth
    ensures var first := RefreshTable(rec, Measure(s, c1), opts);
      var second := RefreshTable(first.record, Measure(s, c2), opts);
      && first.record.minWidth == s
      && first.record.isResponsible
      && second.action == Restored
      && second.record.rendered == Html(html)
  {
  }
}
