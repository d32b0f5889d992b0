/** The Width Monitor's entry points over all monitored tables, in discovery
    order: initialisation, a refresh tick, and the public toggle. */
module Monitor {
  import opened Wrappers
  import opened Structure
  import opened Config
  import opened Records
  import opened Engine

  /** Where a pass over the tables stopped: the index of the table whose
      initialisation or first build failed. */
  datatype Abort = Abort(index: nat, error: StructureError)

  /** The records after a pass over the tables, and where it stopped if it did. */
  datatype Tick = Tick(records: seq<TableRecord>, abort: Option<Abort>)

  datatype RestoreError = NoSuchTable(index: int)

  /** Initialising every discovered table in order. The first table whose
      structure cannot be read or whose first build fails stops the loop:
      the tables before it keep the records they were given (and later
      ticks refresh them), the tables after it get none. `ms[i]` is the
      measurement of table `i`. */
  method Init(tables: seq<SourceTable>, ms: seq<Measure>, containerPresent: bool, opts: Options)
    returns (tick: Tick)
    requires |ms| == |tables|
    ensures tick.abort.None? <==>
      forall i :: 0 <= i < |tables| ==> InitTable(tables[i], ms[i], containerPresent, opts).Success?
    ensures tick.abort.None? ==> |tick.records| == |tables|
    ensures tick.abort.Some? ==>
      var k := tick.abort.value.index;
      && k < |tables|
      && |tick.records| == k
      && InitTable(tables[k], ms[k], containerPresent, opts) == Failure(tick.abort.value.error)
    ensures forall j :: 0 <= j < |tick.records| ==>
      InitTable(tables[j], ms[j], containerPresent, opts) == Success(tick.records[j])
  {
    var recs: seq<TableRecord> := [];
    var i := 0;
    while i < |tables|
      invariant 0 <= i <= |tables|
      invariant |recs| == i
      invariant forall j :: 0 <= j < i ==> InitTable(tables[j], ms[j], containerPresent, opts) == Success(recs[j])
    {
      var one := InitTable(tables[i], ms[i], containerPresent, opts);
      if one.Failure? {
        assert InitTable(tables[i], ms[i], containerPresent, opts) == Failure(one.error);
        return Tick(recs, Some(Abort(i, one.error)));
      }
      recs := recs + [one.value];
      i := i + 1;
    }
    return Tick(recs, None);
  }

  /** Applies precomputed per-table steps in order, stopping at the first
      failed build: the failing table takes its step's record, the tables
      after it keep theirs. */
  method Sweep(recs: seq<TableRecord>, steps: seq<Step>) returns (tick: Tick)
    requires |steps| == |recs|
    ensures |tick.records| == |recs|
    ensures tick.abort.None? <==> forall i :: 0 <= i < |steps| ==> !steps[i].action.BuildFailed?
    ensures tick.abort.None? ==> forall i :: 0 <= i < |recs| ==> tick.records[i] == steps[i].record
    ensures tick.abort.Some? ==>
      var k := tick.abort.value.index;
      && k < |recs|
      && steps[k].action == BuildFailed(tick.abort.value.error)
      && (forall j :: 0 <= j < k ==> !steps[j].action.BuildFailed?)
      && (forall j :: 0 <= j <= k ==> tick.records[j] == steps[j].record)
      && (forall j :: k < j < |recs| ==> tick.records[j] == recs[j])
  {
    var done: seq<TableRecord> := [];
    var i := 0;
    while i < |recs|
      invariant 0 <= i <= |recs|
      invariant |done| == i
      invariant forall j :: 0 <= j < i ==> !steps[j].action.BuildFailed?
      invariant forall j :: 0 <= j < i ==> done[j] == steps[j].record
    {
      var step := steps[i];
      if step.action.BuildFailed? {
        var out := done + [step.record] + recs[i + 1..];
        assert forall j :: 0 <= j < i ==> out[j] == done[j];
        assert out[i] == step.record;
        assert forall j :: i < j < |recs| ==> out[j] == recs[j];
        return Tick(out, Some(Abort(i, step.action.error)));
      }
      done := done + [step.record];
      i := i + 1;
    }
    return Tick(done, None);
  }

  /** One tick over every table in order. A failing first build stops the
      tick: the failing table keeps its new measurements, the tables after
      it are not visited. `ms[i]` is the measurement of table `i`. */
  method Refresh(recs: seq<TableRecord>, ms: seq<Measure>, opts: Options) returns (tick: Tick)
    requires |ms| == |recs|
    ensures |tick.records| == |recs|
    ensures tick.abort.None? <==>
      forall i :: 0 <= i < |recs| ==> !RefreshTable(recs[i], ms[i], opts).action.BuildFailed?
    ensures tick.abort.None? ==>
      forall i :: 0 <= i < |recs| ==> tick.records[i] == RefreshTable(recs[i], ms[i], opts).record
    ensures tick.abort.Some? ==>
      var k := tick.abort.value.index;
      && k < |recs|
      && RefreshTable(recs[k], ms[k], opts).action == BuildFailed(tick.abort.value.error)
      && (forall j :: 0 <= j < k ==> !RefreshTable(recs[j], ms[j], opts).action.BuildFailed?)
      && (forall j :: 0 <= j <= k ==> tick.records[j] == RefreshTable(recs[j], ms[j], opts).record)
      && (forall j :: k < j < |recs| ==> tick.records[j] == recs[j])
  {
    var steps := seq(|recs|, i requires 0 <= i < |recs| => RefreshTable(recs[i], ms[i], opts));
    assert forall i :: 0 <= i < |recs| ==> steps[i] == RefreshTable(recs[i], ms[i], opts);
    tick := Sweep(recs, steps);
  }

  /** The public toggle: with no index every table is toggled, with an index
      only that table is; an index naming no table is an error. */
  function Restore(recs: seq<TableRecord>, index: Option<int>): (r: Result<seq<TableRecord>, RestoreError>)
    ensures index.None? ==> r.Success? && |r.value| == |recs|
    ensures index.None? ==> forall i :: 0 <= i < |recs| ==> r.value[i] == Toggle(recs[i])
    ensures index.Some? ==> (r.Success? <==> 0 <= index.value < |recs|)
    ensures index.Some? && r.Success? ==>
      && |r.value| == |recs|
      && r.value[index.value] == Toggle(recs[index.value])
      && forall i :: 0 <= i < |recs| && i != index.value ==> r.value[i] == recs[i]
    ensures r.Failure? ==> index.Some? && r.error == NoSuchTable(index.value)
  {
    match index
    case None => Success(seq(|recs|, i requires 0 <= i < |recs| => Toggle(recs[i])))
    case Some(i) =>
      if 0 <= i < |recs| then Success(recs[i := Toggle(recs[i])]) else Failure(NoSuchTable(i))
  }
}
