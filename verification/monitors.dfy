/**
 * The monitor store and its scheduled health check
 * (packages/backend/src/monitors/monitors.service.ts).
 *
 * The table of monitors is a map from id to row, held by the service object.
 * A tick takes the active rows in id order, probes each one in turn and
 * writes back `status` and `lastChecked`. The network probe, the store's
 * write acknowledgements and the clock are inputs: a `TickOracle` says, for
 * the monitor at each position of the snapshot, what the probe returned and
 * whether each of the two possible writes was accepted.
 */
module Monitors {
  import opened Wrappers

  /** An instant as `new Date()` yields it; the model never inspects it. */
  type Timestamp = int

  datatype Status = Pending | Up | Down

  datatype Monitor = Monitor(
    id: int,
    name: string,
    url: string,
    isActive: bool,
    status: Status,
    lastChecked: Option<Timestamp>)

  /** The body of a create request; an absent `isActive` takes the column default. */
  datatype CreateMonitorDto = CreateMonitorDto(name: string, url: string, isActive: Option<bool>)

  /** The body of a partial update; only the fields present are written. */
  datatype UpdateMonitorDto = UpdateMonitorDto(name: Option<string>, url: Option<string>, isActive: Option<bool>)

  /** What the store throws when `update` or `delete` names an id it does not hold. */
  datatype StoreError = RecordNotFound

  /** What one probe did: it produced a response (with its `ok` flag) or it threw. */
  datatype ProbeResult = Response(isOk: bool) | Failed

  /**
   * The inputs of one tick, indexed by position in the snapshot: the probe's
   * result, whether the write after a response is accepted, and whether the
   * write in the catch block is accepted.
   */
  datatype TickOracle = TickOracle(
    probe: nat -> ProbeResult,
    tryWriteOk: nat -> bool,
    catchWriteOk: nat -> bool)

  /** How a tick ends: normally, because the snapshot read threw, or because a catch-block write threw. */
  datatype TickOutcome = Completed | ReadFailed | WriteEscaped(index: nat)

  // ---------------------------------------------------------------------
  // Shape of the table

  /** Every row is stored under its own id. */
  ghost predicate KeyedById(rows: map<int, Monitor>) {
    forall id :: id in rows ==> rows[id].id == id
  }

  ghost predicate IdsAscending(ms: seq<Monitor>) {
    forall a, b :: 0 <= a < b < |ms| ==> ms[a].id < ms[b].id
  }

  /** Every element of `ms` is the current row stored under its id. */
  ghost predicate RowsOf(ms: seq<Monitor>, rows: map<int, Monitor>) {
    forall j :: 0 <= j < |ms| ==> ms[j].id in rows && rows[ms[j].id] == ms[j]
  }

  /** The ids that occur in a list of rows. */
  ghost function IdSet(ms: seq<Monitor>): set<int> {
    set m | m in ms :: m.id
  }

  /** The ids of the rows whose `isActive` is set. */
  ghost function ActiveIds(rows: map<int, Monitor>): set<int> {
    set id | id in rows && rows[id].isActive
  }

  /** Two versions of a row that agree on everything a tick must not touch. */
  predicate SameIdentity(a: Monitor, b: Monitor) {
    a.id == b.id && a.name == b.name && a.url == b.url && a.isActive == b.isActive
  }

  /**
   * Ids come from the table's autoincrement counter: they start at 1 and
   * stay below the next id to be handed out.
   */
  ghost predicate IdsBelow(rows: map<int, Monitor>, bound: int) {
    forall id :: id in rows ==> 1 <= id < bound
  }

  /**
   * The ids in `rows` from 1 up to (not including) `bound`, ascending; with
   * `activeOnly`, only those whose row has `isActive` set.
   */
  function AscendingIds(rows: map<int, Monitor>, bound: int, activeOnly: bool): (r: seq<int>)
    ensures forall k :: k in r <==> k in rows && 1 <= k < bound && (activeOnly ==> rows[k].isActive)
    ensures forall a, b :: 0 <= a < b < |r| ==> r[a] < r[b]
    ensures forall j :: 0 <= j < |r| ==> r[j] < bound
    decreases bound
  {
    if bound <= 1 then []
    else
      var below := AscendingIds(rows, bound - 1, activeOnly);
      var id := bound - 1;
      if id in rows && (activeOnly ==> rows[id].isActive) then below + [id] else below
  }

  /** The rows stored under `ids`, in that order. */
  function RowsAt(rows: map<int, Monitor>, ids: seq<int>): (r: seq<Monitor>)
    requires KeyedById(rows)
    requires forall j :: 0 <= j < |ids| ==> ids[j] in rows
    requires forall a, b :: 0 <= a < b < |ids| ==> ids[a] < ids[b]
    ensures IdsAscending(r) && RowsOf(r, rows)
    ensures forall k :: k in ids ==> k in IdSet(r)
    ensures forall k :: k in IdSet(r) ==> k in ids
  {
    var r := seq(|ids|, j requires 0 <= j < |ids| => rows[ids[j]]);
    assert forall j :: 0 <= j < |r| ==> r[j] == rows[ids[j]] && r[j].id == ids[j];
    forall k | k in ids ensures k in IdSet(r) {
      var j :| 0 <= j < |ids| && ids[j] == k;
      assert r[j] in r;
    }
    r
  }

  /** All rows ordered by ascending id, as `orderBy: { id: 'asc' }` asks. */
  function InIdOrder(rows: map<int, Monitor>, bound: int): (r: seq<Monitor>)
    requires KeyedById(rows) && IdsBelow(rows, bound)
    ensures IdsAscending(r) && RowsOf(r, rows)
    ensures IdSet(r) == rows.Keys
  {
    RowsAt(rows, AscendingIds(rows, bound, false))
  }

  /** The rows a tick reads: `findMany({ where: { isActive: true } })`. */
  function ActiveSnapshot(rows: map<int, Monitor>, bound: int): (r: seq<Monitor>)
    requires KeyedById(rows) && IdsBelow(rows, bound)
    ensures IdsAscending(r) && RowsOf(r, rows)
    ensures forall j :: 0 <= j < |r| ==> r[j].isActive
    ensures IdSet(r) == ActiveIds(rows)
  {
    RowsAt(rows, AscendingIds(rows, bound, true))
  }

  // ---------------------------------------------------------------------
  // One tick, as a function of the table and the oracle

  /** `response.ok ? 'up' : 'down'` */
  function Classify(isOk: bool): (s: Status)
    ensures s == Up <==> isOk
    ensures s != Pending
  {
    if isOk then Up else Down
  }

  /** The row after a status write: only `status` and `lastChecked` change. */
  function Stamp(m: Monitor, s: Status, now: Timestamp): (r: Monitor)
    ensures SameIdentity(m, r)
    ensures r.status == s && r.lastChecked == Some(now)
  {
    m.(status := s, lastChecked := Some(now))
  }

  /**
   * Whether monitor `j` ends with some status written: the try-block write
   * or, failing that, the catch-block write was accepted. A probe that
   * threw never reaches the try-block write, so only the catch block can
   * handle it.
   */
  function Handled(o: TickOracle, j: nat): (b: bool)
    ensures o.probe(j).Response? && o.tryWriteOk(j) ==> b
    ensures o.catchWriteOk(j) ==> b
    ensures o.probe(j).Failed? ==> (b <==> o.catchWriteOk(j))
    ensures b ==> o.tryWriteOk(j) || o.catchWriteOk(j)
  {
    (o.probe(j).Response? && o.tryWriteOk(j)) || o.catchWriteOk(j)
  }

  /** The status a handled monitor ends with. */
  function WrittenStatus(p: ProbeResult, tryOk: bool): (s: Status)
    ensures s == Up <==> p == Response(true) && tryOk
    ensures s != Pending
  {
    if p.Response? && tryOk then Classify(p.isOk) else Down
  }

  /**
   * One iteration of the loop for the monitor `m` at position `i`. The write
   * after a response lands only if the row still exists and the store
   * accepts it; otherwise control is in the catch block, whose `down` write
   * lands under the same conditions. The boolean is false when the catch
   * block's own write throws, so the error leaves the tick.
   */
  function CheckMonitor(rows: map<int, Monitor>, m: Monitor, i: nat, now: Timestamp, o: TickOracle)
    : (r: (map<int, Monitor>, bool))
    ensures r.0.Keys == rows.Keys
    ensures r.1 <==> m.id in rows && Handled(o, i)
    ensures r.1 ==> r.0 == rows[m.id := Stamp(rows[m.id], WrittenStatus(o.probe(i), o.tryWriteOk(i)), now)]
    ensures !r.1 ==> r.0 == rows
  {
    var p := o.probe(i);
    if p.Response? && m.id in rows && o.tryWriteOk(i) then
      (rows[m.id := Stamp(rows[m.id], Classify(p.isOk), now)], true)
    else if m.id in rows && o.catchWriteOk(i) then
      (rows[m.id := Stamp(rows[m.id], Down, now)], true)
    else
      (rows, false)
  }

  /** The loop from position `i` of the snapshot to its end. */
  function TickFrom(rows: map<int, Monitor>, snap: seq<Monitor>, i: nat, now: Timestamp, o: TickOracle)
    : (r: (map<int, Monitor>, TickOutcome))
    requires i <= |snap|
    ensures r.0.Keys == rows.Keys
    ensures r.1 != ReadFailed
    ensures r.1.WriteEscaped? ==> i <= r.1.index < |snap|
    decreases |snap| - i
  {
    if i == |snap| then (rows, Completed)
    else
      var step := CheckMonitor(rows, snap[i], i, now, o);
      if step.1 then TickFrom(step.0, snap, i + 1, now, o)
      else (rows, WriteEscaped(i))
  }

  /** A handled monitor moves the loop on to the next position. */
  lemma TickFromStep(
    rows: map<int, Monitor>, snap: seq<Monitor>, i: nat, now: Timestamp, o: TickOracle, after: map<int, Monitor>)
    requires i < |snap| && CheckMonitor(rows, snap[i], i, now, o) == (after, true)
    ensures TickFrom(rows, snap, i, now, o) == TickFrom(after, snap, i + 1, now, o)
  {
  }

  /** `handleCron`: read the active snapshot, then run the loop over it. */
  function Tick(rows: map<int, Monitor>, bound: int, now: Timestamp, readOk: bool, o: TickOracle)
    : (r: (map<int, Monitor>, TickOutcome))
    requires KeyedById(rows) && IdsBelow(rows, bound)
    ensures r.0.Keys == rows.Keys
    ensures r.1 == ReadFailed <==> !readOk
    ensures !readOk ==> r.0 == rows
    ensures r.1.WriteEscaped? ==> r.1.index < |ActiveSnapshot(rows, bound)|
  {
    if !readOk then (rows, ReadFailed)
    else TickFrom(rows, ActiveSnapshot(rows, bound), 0, now, o)
  }

  /** Where the loop stopped: at the monitor whose error escaped, or at the end. */
  function StopIndex(out: TickOutcome, n: nat): nat {
    if out.WriteEscaped? then out.index else n
  }

  // ---------------------------------------------------------------------
  // What a tick does to the table

  /** The tick writes only `status` and `lastChecked`: no row appears, disappears or changes identity. */
  lemma {:induction false} TickFromKeepsIdentity(
    rows: map<int, Monitor>, snap: seq<Monitor>, i: nat, now: Timestamp, o: TickOracle)
    requires i <= |snap|
    ensures var after := TickFrom(rows, snap, i, now, o).0;
      forall id :: id in rows ==> SameIdentity(rows[id], after[id])
    decreases |snap| - i
  {
    if i < |snap| {
      var step := CheckMonitor(rows, snap[i], i, now, o);
      if step.1 {
        TickFromKeepsIdentity(step.0, snap, i + 1, now, o);
      }
    }
  }

  /** A row that no remaining snapshot entry names is left exactly as it was. */
  lemma {:induction false} TickFromUntouched(
    rows: map<int, Monitor>, snap: seq<Monitor>, i: nat, now: Timestamp, o: TickOracle, id: int)
    requires i <= |snap| && id in rows
    requires forall j :: i <= j < |snap| ==> snap[j].id != id
    ensures TickFrom(rows, snap, i, now, o).0[id] == rows[id]
    decreases |snap| - i
  {
    if i < |snap| {
      var step := CheckMonitor(rows, snap[i], i, now, o);
      if step.1 {
        TickFromUntouched(step.0, snap, i + 1, now, o, id);
      }
    }
  }

  ghost predicate DistinctIds(snap: seq<Monitor>) {
    forall a, b :: 0 <= a < b < |snap| ==> snap[a].id != snap[b].id
  }

  ghost predicate IdsIn(snap: seq<Monitor>, rows: map<int, Monitor>) {
    forall j :: 0 <= j < |snap| ==> snap[j].id in rows
  }

  /**
   * The loop is sequential in snapshot order: every monitor before the stop
   * index has been written exactly once, with `WrittenStatus` and the tick's
   * timestamp, and every monitor from the stop index on is untouched.
   */
  lemma {:induction false} TickFromRecords(
    rows: map<int, Monitor>, snap: seq<Monitor>, i: nat, now: Timestamp, o: TickOracle)
    requires i <= |snap| && DistinctIds(snap) && IdsIn(snap, rows)
    ensures var r := TickFrom(rows, snap, i, now, o);
      var stop := StopIndex(r.1, |snap|);
      && i <= stop <= |snap|
      && (forall j :: i <= j < stop ==>
            r.0[snap[j].id] == Stamp(rows[snap[j].id], WrittenStatus(o.probe(j), o.tryWriteOk(j)), now))
      && (forall j :: stop <= j < |snap| ==> r.0[snap[j].id] == rows[snap[j].id])
    decreases |snap| - i
  {
    if i < |snap| {
      var id := snap[i].id;
      var step := CheckMonitor(rows, snap[i], i, now, o);
      if step.1 {
        var next := step.0;
        assert next == rows[id := Stamp(rows[id], WrittenStatus(o.probe(i), o.tryWriteOk(i)), now)];
        TickFromRecords(next, snap, i + 1, now, o);
        TickFromUntouched(next, snap, i + 1, now, o, id);
        forall j | i < j < |snap| ensures next[snap[j].id] == rows[snap[j].id] {
          assert snap[j].id != id;
        }
      }
    }
  }

  /**
   * The loop completes exactly when every remaining monitor is handled; when
   * it stops early, it stops at the first monitor whose catch-block write
   * failed after its try-block write did not land.
   */
  lemma {:induction false} TickFromOutcome(
    rows: map<int, Monitor>, snap: seq<Monitor>, i: nat, now: Timestamp, o: TickOracle)
    requires i <= |snap| && IdsIn(snap, rows)
    ensures var out := TickFrom(rows, snap, i, now, o).1;
      && (out == Completed <==> forall j :: i <= j < |snap| ==> Handled(o, j))
      && (out.WriteEscaped? ==>
            !Handled(o, out.index) && forall j :: i <= j < out.index ==> Handled(o, j))
    decreases |snap| - i
  {
    if i < |snap| {
      var step := CheckMonitor(rows, snap[i], i, now, o);
      if step.1 {
        TickFromOutcome(step.0, snap, i + 1, now, o);
      }
    }
  }

  /** An inactive monitor is never probed: the tick leaves its row exactly as it was, whatever the oracle says. */
  lemma TickLeavesInactiveAlone(
    rows: map<int, Monitor>, bound: int, now: Timestamp, readOk: bool, o: TickOracle, id: int)
    requires KeyedById(rows) && IdsBelow(rows, bound) && id in rows && !rows[id].isActive
    ensures Tick(rows, bound, now, readOk, o).0[id] == rows[id]
  {
    if readOk {
      var snap := ActiveSnapshot(rows, bound);
      forall j | 0 <= j < |snap| ensures snap[j].id != id {
        assert rows[snap[j].id] == snap[j];
      }
      TickFromUntouched(rows, snap, 0, now, o, id);
    }
  }

  /**
   * When the store accepts every write, the tick completes, every active
   * monitor ends `up` or `down` with the tick's timestamp, and it is `up`
   * exactly when its probe produced a response whose `ok` flag is set.
   */
  lemma TickWhenStoreAcceptsEveryWrite(rows: map<int, Monitor>, bound: int, now: Timestamp, o: TickOracle)
    requires KeyedById(rows) && IdsBelow(rows, bound)
    requires forall j :: o.tryWriteOk(j) && o.catchWriteOk(j)
    ensures var r := Tick(rows, bound, now, true, o);
      var snap := ActiveSnapshot(rows, bound);
      && r.1 == Completed
      && (forall j :: 0 <= j < |snap| ==>
            r.0[snap[j].id] == Stamp(snap[j], if o.probe(j) == Response(true) then Up else Down, now))
      && (forall id :: id in rows && rows[id].isActive ==>
            r.0[id].status != Pending && r.0[id].lastChecked == Some(now))
  {
    var snap := ActiveSnapshot(rows, bound);
    var r := TickFrom(rows, snap, 0, now, o);
    assert r == Tick(rows, bound, now, true, o);
    assert DistinctIds(snap) && IdsIn(snap, rows);
    TickFromOutcome(rows, snap, 0, now, o);
    TickFromRecords(rows, snap, 0, now, o);
    assert r.1 == Completed;
    forall j | 0 <= j < |snap|
      ensures r.0[snap[j].id] == Stamp(snap[j], if o.probe(j) == Response(true) then Up else Down, now)
    {
      assert rows[snap[j].id] == snap[j];
    }
    forall id | id in rows && rows[id].isActive
      ensures r.0[id].status != Pending && r.0[id].lastChecked == Some(now)
    {
      assert id in IdSet(snap);
      var m :| m in snap && m.id == id;
      var j :| 0 <= j < |snap| && snap[j] == m;
      assert r.0[snap[j].id] == Stamp(rows[snap[j].id], WrittenStatus(o.probe(j), o.tryWriteOk(j)), now);
    }
  }

  /**
   * A probe that throws (a network error or the five-second abort) is
   * written `down`, and the loop goes on with the next monitor, provided the
   * catch block's write is accepted.
   */
  lemma FailedProbeIsWrittenDown(
    rows: map<int, Monitor>, snap: seq<Monitor>, i: nat, now: Timestamp, o: TickOracle)
    requires i < |snap| && snap[i].id in rows
    requires o.probe(i) == Failed && o.catchWriteOk(i)
    ensures var step := CheckMonitor(rows, snap[i], i, now, o);
      step.1 && step.0 == rows[snap[i].id := Stamp(rows[snap[i].id], Down, now)]
    ensures TickFrom(rows, snap, i, now, o)
         == TickFrom(rows[snap[i].id := Stamp(rows[snap[i].id], Down, now)], snap, i + 1, now, o)
  {
  }

  /**
   * A write after a response that the store refuses falls into the catch
   * block; if that write is refused too, the error leaves the tick at this
   * monitor and the table is as the previous monitors left it.
   */
  lemma DoubleWriteFailureEscapes(
    rows: map<int, Monitor>, snap: seq<Monitor>, i: nat, now: Timestamp, o: TickOracle)
    requires i < |snap|
    requires !o.tryWriteOk(i) && !o.catchWriteOk(i)
    ensures TickFrom(rows, snap, i, now, o) == (rows, WriteEscaped(i))
  {
  }

  // ---------------------------------------------------------------------
  // Partial update

  /** The row after `update(id, dto)`: the fields present in the DTO replace the row's, the rest stay. */
  function ApplyUpdate(m: Monitor, dto: UpdateMonitorDto): (r: Monitor)
    ensures SameIdentity(m, r) <==>
      && (dto.name.None? || dto.name.value == m.name)
      && (dto.url.None? || dto.url.value == m.url)
      && (dto.isActive.None? || dto.isActive.value == m.isActive)
    ensures r.id == m.id && r.status == m.status && r.lastChecked == m.lastChecked
    ensures dto.name.Some? ==> r.name == dto.name.value
    ensures dto.url.Some? ==> r.url == dto.url.value
    ensures dto.isActive.Some? ==> r.isActive == dto.isActive.value
    ensures dto.name.None? ==> r.name == m.name
    ensures dto.url.None? ==> r.url == m.url
    ensures dto.isActive.None? ==> r.isActive == m.isActive
  {
    m.(name := dto.name.GetOr(m.name),
       url := dto.url.GetOr(m.url),
       isActive := dto.isActive.GetOr(m.isActive))
  }

  /** Sending the same update twice has the effect of sending it once. */
  lemma ApplyUpdateIdempotent(m: Monitor, dto: UpdateMonitorDto)
    ensures ApplyUpdate(ApplyUpdate(m, dto), dto) == ApplyUpdate(m, dto)
  {
  }

  // ---------------------------------------------------------------------
  // The service object

  class MonitorsService {
    /** The `monitor` table, keyed by id. */
    var rows: map<int, Monitor>
    /** The next id the table's autoincrement hands out. */
    var nextId: int

    ghost predicate Valid()
      reads this
    {
      KeyedById(rows) && IdsBelow(rows, nextId) && nextId >= 1
    }

    constructor ()
      ensures Valid() && rows == map[]
    {
      rows := map[];
      nextId := 1;
    }

    /**
     * One health-check tick. Each monitor of the active snapshot is handled
     * in turn: after a response, `up` or `down` by its `ok` flag is written;
     * if the probe threw or that write failed, `down` is written from the
     * catch block; if that write fails as well, the tick ends there.
     */
    method HandleCron(now: Timestamp, readOk: bool, o: TickOracle) returns (outcome: TickOutcome)
      requires Valid()
      modifies this
      ensures Valid() && nextId == old(nextId)
      ensures (rows, outcome) == Tick(old(rows), old(nextId), now, readOk, o)
    {
      if !readOk {
        return ReadFailed;
      }
      var snap := ActiveSnapshot(rows, nextId);
      ghost var target := TickFrom(rows, snap, 0, now, o);
      outcome := Completed;
      var i := 0;
      while i < |snap|
        invariant 0 <= i <= |snap|
        invariant Valid() && nextId == old(nextId)
        invariant TickFrom(rows, snap, i, now, o) == target
      {
        ghost var before := rows;
        var handled := CheckOne(snap[i], i, now, o);
        if !handled {
          assert TickFrom(before, snap, i, now, o) == (rows, WriteEscaped(i));
          outcome := WriteEscaped(i);
          return;
        }
        TickFromStep(before, snap, i, now, o, rows);
        i := i + 1;
      }
      assert TickFrom(rows, snap, i, now, o) == (rows, Completed);
    }

    /**
     * The body of the loop for monitor `m` at position `i`: the probe and
     * the write in the try block, then the `down` write in the catch block
     * if either threw. False when the catch block's write throws too.
     */
    method CheckOne(m: Monitor, i: nat, now: Timestamp, o: TickOracle) returns (handled: bool)
      requires Valid()
      modifies this
      ensures Valid() && nextId == old(nextId)
      ensures (rows, handled) == CheckMonitor(old(rows), m, i, now, o)
    {
      var p := o.probe(i);
      if p.Response? && m.id in rows && o.tryWriteOk(i) {
        rows := rows[m.id := Stamp(rows[m.id], Classify(p.isOk), now)];
        return true;
      }
      if m.id in rows && o.catchWriteOk(i) {
        rows := rows[m.id := Stamp(rows[m.id], Down, now)];
        return true;
      }
      return false;
    }

    /** `create`: store the DTO as a new row with a fresh id, status `pending` and no check yet. */
    method Create(dto: CreateMonitorDto) returns (m: Monitor)
      requires Valid()
      modifies this
      ensures Valid()
      ensures m == Monitor(old(nextId), dto.name, dto.url, dto.isActive.GetOr(true), Pending, None)
      ensures m.id !in old(rows) && rows == old(rows)[m.id := m]
      ensures nextId == old(nextId) + 1
    {
      m := Monitor(nextId, dto.name, dto.url, dto.isActive.GetOr(true), Pending, None);
      rows := rows[nextId := m];
      nextId := nextId + 1;
    }

    /** `findAll`: every row, once, by ascending id. */
    function FindAll(): (r: seq<Monitor>)
      reads this
      requires Valid()
      ensures IdsAscending(r) && RowsOf(r, rows)
      ensures IdSet(r) == rows.Keys
    {
      InIdOrder(rows, nextId)
    }

    /** `findOne`: the row with that id, or nothing. */
    function FindOne(id: int): (r: Option<Monitor>)
      reads this
      requires Valid()
      ensures r.None? <==> id !in rows
      ensures id in rows ==> r == Some(rows[id]) && r.value.id == id
    {
      if id in rows then Some(rows[id]) else None
    }

    /** `update`: rewrite the fields present in the DTO on that one row; a missing id throws. */
    method Update(id: int, dto: UpdateMonitorDto) returns (r: Result<Monitor, StoreError>)
      requires Valid()
      modifies this
      ensures Valid() && nextId == old(nextId)
      ensures r.Err? <==> id !in old(rows)
      ensures r.Err? ==> rows == old(rows)
      ensures r.Ok? ==> r.value == ApplyUpdate(old(rows)[id], dto) && rows == old(rows)[id := r.value]
    {
      if id !in rows {
        return Err(RecordNotFound);
      }
      var m := ApplyUpdate(rows[id], dto);
      rows := rows[id := m];
      r := Ok(m);
    }

    /** `remove`: delete that one row and return it; a missing id throws. */
    method Remove(id: int) returns (r: Result<Monitor, StoreError>)
      requires Valid()
      modifies this
      ensures Valid() && nextId == old(nextId)
      ensures r.Err? <==> id !in old(rows)
      ensures r.Err? ==> rows == old(rows)
      ensures r.Ok? ==> r.value == old(rows)[id] && rows == old(rows) - {id}
    {
      if id !in rows {
        return Err(RecordNotFound);
      }
      r := Ok(rows[id]);
      rows := rows - {id};
    }
  }
}
