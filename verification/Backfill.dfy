/** The crash-resumable backfill of `born_ts`: batches are committed to the
    database, a cursor is written beside it, and the process may be killed
    between any two of those writes. */
module Backfill {
  import opened Text
  import opened Calendar
  import TimeUnits

  const BATCH: nat := 256

  /** A row in id order; `ts` is its `born_ts`, when present and not null. */
  datatype Row = Row(id: nat, born: Option<int>, ts: Option<int>) {
    predicate Filled() { ts.Some? }
  }

  datatype IndexState = Ready | Building | Dropping

  /** The cursor file: absent, torn or foreign, or readable. */
  datatype Marker = Unreadable | Readable(after: Option<nat>, complete: bool)

  /** What survives a kill. */
  datatype Disk = Disk(rows: seq<Row>, column: bool, indexes: map<string, IndexState>, marker: Marker)

  /** How a call ends: a value, an error, or a kill inside it. */
  datatype Outcome<+T> = Done(value: T) | Refused | Killed

  const MAX_INDEXES: nat := 64

  const IX_BORN_TS := "place_born_ts"
  const IX_NAME := "place_name"
  const IX_KIND_LOWER := "place_kind_lower"

  predicate IsWanted(name: string) { name == IX_BORN_TS || name == IX_NAME || name == IX_KIND_LOWER }

  /** `born_ts_micros`: a yyyymmdd integer with a day every month has, as the
      microseconds of its midnight. */
  function BornMicros(born: int): Option<int> {
    var year, month, day := born / 10_000, born / 100 % 100, born % 100;
    if born < 0 || !(1 <= month <= 12) || !(1 <= day <= 28) || !(1 <= year <= 9999) then None
    else Some(DaysFromCivil(year, month, day) * TimeUnits.MICROS_PER_DAY)
  }

  function BornTs(born: Option<int>): Option<int> {
    if born.None? then None else BornMicros(born.value)
  }

  /** `n` writes the date, and `v` is its midnight. */
  predicate Writes(n: int, v: int, d: Date) {
    && 1 <= d.year <= 9999 && 1 <= d.month <= 12 && 1 <= d.day <= 28
    && n == 10_000 * d.year + 100 * d.month + d.day && v == Days(d) * TimeUnits.MICROS_PER_DAY
  }

  /** What `born_ts_micros` converts, and to what, exactly. */
  lemma BornMicrosIff(n: int, v: int)
    ensures BornMicros(n) == Some(v) <==> exists d :: Writes(n, v, d)
  {
    hide DaysFromCivil;
    if BornMicros(n) == Some(v) {
      assert n == 100 * (n / 100) + n % 100 && n / 10_000 == n / 100 / 100;
      assert Writes(n, v, Date(n / 10_000, n / 100 % 100, n % 100));
    }
    if d :| Writes(n, v, d) { DateParts(d.year, d.month, d.day); }
  }

  lemma DateParts(y: int, m: int, d: int)
    requires 1 <= y && 1 <= m <= 12 && 1 <= d <= 28
    ensures var n := 10_000 * y + 100 * m + d; n / 10_000 == y && n / 100 % 100 == m && n % 100 == d
  {
    assert (10_000 * y + 100 * m + d) / 100 == 100 * y + m;
  }

  // ------------------------------------------------------------------- rows

  predicate InIdOrder(rows: seq<Row>) {
    forall i, j :: 0 <= i < j < |rows| ==> rows[i].id < rows[j].id
  }

  predicate AllFilled(rows: seq<Row>) { forall i :: 0 <= i < |rows| ==> rows[i].Filled() }

  /** Nothing but fills happened: the same rows, what was filled as it was, and
      what is newly filled holding its own `born`, converted. */
  predicate OnlyFills(before: seq<Row>, after: seq<Row>) {
    && |before| == |after|
    && forall i :: 0 <= i < |before| ==>
         && after[i].id == before[i].id && after[i].born == before[i].born
         && (before[i].Filled() ==> after[i].ts == before[i].ts)
         && (!before[i].Filled() && after[i].Filled() ==> after[i].ts == BornTs(before[i].born))
  }

  /** A newly filled row holds the midnight of the date its `born` writes. */
  lemma FilledFromBorn(before: seq<Row>, after: seq<Row>, i: nat)
    requires OnlyFills(before, after) && i < |before| && !before[i].Filled() && after[i].Filled()
    ensures before[i].born.Some? && exists d :: Writes(before[i].born.value, after[i].ts.value, d)
  {
    hide BornMicros;
    BornMicrosIff(before[i].born.value, after[i].ts.value);
  }

  /** Whether a cursor has passed a row. */
  predicate Passed(cursor: Option<nat>, row: Row) { cursor.Some? && row.id <= cursor.value }

  /** Where a scan with an exclusive cursor starts. */
  function ScanStart(rows: seq<Row>, cursor: Option<nat>): (k: nat)
    ensures k <= |rows|
    ensures forall i :: 0 <= i < k ==> Passed(cursor, rows[i])
    ensures k < |rows| ==> !Passed(cursor, rows[k])
  {
    if rows != [] && Passed(cursor, rows[0]) then 1 + ScanStart(rows[1..], cursor) else 0
  }

  lemma ScanStartSplits(rows: seq<Row>, cursor: Option<nat>)
    requires InIdOrder(rows)
    ensures forall i :: 0 <= i < |rows| ==> (Passed(cursor, rows[i]) <==> i < ScanStart(rows, cursor))
  {
    var k := ScanStart(rows, cursor);
    forall i | k <= i < |rows| ensures !Passed(cursor, rows[i]) {
      assert k < i ==> rows[k].id < rows[i].id;
    }
  }

  lemma ScanStartAt(rows: seq<Row>, k: nat)
    requires InIdOrder(rows) && k < |rows|
    ensures ScanStart(rows, Some(rows[k].id)) == k + 1
  {
    ScanStartSplits(rows, Some(rows[k].id));
    var n := ScanStart(rows, Some(rows[k].id));
    assert Passed(Some(rows[k].id), rows[k]);
    if k + 1 < |rows| { assert !Passed(Some(rows[k].id), rows[k + 1]); }
  }

  function CountFilled(rows: seq<Row>): nat {
    if rows == [] then 0 else (if rows[0].Filled() then 1 else 0) + CountFilled(rows[1..])
  }

  lemma {:induction false} CountProves(rows: seq<Row>)
    ensures CountFilled(rows) <= |rows|
    ensures CountFilled(rows) == |rows| <==> AllFilled(rows)
  {
    if rows != [] {
      CountProves(rows[1..]);
      assert rows == [rows[0]] + rows[1..];
    }
  }

  // ------------------------------------------------------------ the promises

  /** A readable marker claims no more than the rows show: its cursor has passed
      no unfilled row, and `complete` means every row is filled. */
  predicate MarkerSafe(d: Disk) {
    d.marker.Readable? ==>
      && (d.marker.complete ==> AllFilled(d.rows))
      && forall i :: 0 <= i < |d.rows| && Passed(d.marker.after, d.rows[i]) ==> d.rows[i].Filled()
  }

  predicate WantedReady(indexes: map<string, IndexState>) {
    && IX_BORN_TS in indexes && indexes[IX_BORN_TS].Ready?
    && IX_NAME in indexes && indexes[IX_NAME].Ready?
    && IX_KIND_LOWER in indexes && indexes[IX_KIND_LOWER].Ready?
  }

  /** A database the function cases may run on. */
  predicate Provisioned(d: Disk) {
    AllFilled(d.rows) && WantedReady(d.indexes)
  }

  /** A row still to fill whose `born` converts to nothing. */
  predicate HasBadRow(rows: seq<Row>) {
    exists i :: 0 <= i < |rows| && !rows[i].Filled() && BornTs(rows[i].born).None?
  }

  /** How many of the wanted indexes are not there. */
  function Missing(indexes: map<string, IndexState>): nat {
    (if IX_BORN_TS in indexes then 0 else 1) + (if IX_NAME in indexes then 0 else 1)
    + (if IX_KIND_LOWER in indexes then 0 else 1)
  }

  /** Why a run may refuse: nothing to provision, a row that cannot be filled, a
      wanted index being dropped, one the caller's list leaves out, or no room
      for those missing. */
  predicate Hopeless(d: Disk, found: seq<(string, IndexState)>) {
    || d.rows == []
    || HasBadRow(d.rows)
    || (exists name :: IsWanted(name) && name in d.indexes && d.indexes[name].Dropping?)
    || SomeUnlisted(d.indexes, found)
    || NoRoom(d.indexes)
  }

  predicate SomeUnlisted(indexes: map<string, IndexState>, found: seq<(string, IndexState)>) {
    exists name :: IsWanted(name) && name in indexes && !Has(found, name)
  }

  /** Some wanted index is missing, and not all of them fit. */
  predicate NoRoom(indexes: map<string, IndexState>) {
    Missing(indexes) > 0 && |indexes| + Missing(indexes) > MAX_INDEXES
  }

  /** The durable writes one pass over `n` rows makes at most: two a batch. */
  function FillWrites(n: nat): nat { 2 * ((n + BATCH - 1) / BATCH) }

  /** The durable writes a run that is not killed makes at most. */
  function RunWrites(rows: nat, found: nat): nat { 2 * FillWrites(rows) + 2 * found + 9 }

  // ----------------------------------------------------------- one scan batch

  /** How many of the rows after the cursor one batch walks.  The batch test is
      skipped for a row that is already filled, so when the BATCH-th row is one
      of those the walk goes on to the end of the collection. */
  function BatchLength(rest: seq<Row>): nat {
    if |rest| >= BATCH && !rest[BATCH - 1].Filled() then BATCH else |rest|
  }

  /** One filled row in the BATCH-th place, and a thousand rows are written in
      one commit. */
  lemma BatchOverruns() returns (rest: seq<Row>)
    ensures InIdOrder(rest) && |rest| == 1001
    ensures BatchLength(rest) == 1001 && CountFilled(rest) == 1
  {
    rest := seq(1001, i requires 0 <= i < 1001 => Row(i, Some(1900_01_01), if i == BATCH - 1 then Some(0) else None));
    CountOne(rest, BATCH - 1);
  }

  lemma {:induction false} CountOne(rows: seq<Row>, at: nat)
    requires at < |rows| && forall i :: 0 <= i < |rows| ==> (rows[i].Filled() <==> i == at)
    ensures CountFilled(rows) == 1
  {
    if at == 0 {
      CountNone(rows[1..]);
    } else {
      CountOne(rows[1..], at - 1);
    }
  }

  lemma {:induction false} CountNone(rows: seq<Row>)
    requires forall i :: 0 <= i < |rows| ==> !rows[i].Filled()
    ensures CountFilled(rows) == 0
  {
    if rows != [] { CountNone(rows[1..]); }
  }

  // --------------------------------------------------------------- the bench

  /** A process holding the database: `rows`, `column` and `indexes` are what its
      handle sees, `disk` what is committed, and `life` how many more durable
      writes it makes before it is killed. */
  class Bench {
    var rows: seq<Row>
    var column: bool
    var indexes: map<string, IndexState>
    var disk: Disk
    var life: nat

    ghost predicate Valid()
      reads this
    {
      InIdOrder(rows) && OnlyFills(disk.rows, rows)
    }

    /** The handle sees exactly what is committed. */
    ghost predicate Clean()
      reads this
    {
      rows == disk.rows && column == disk.column && indexes == disk.indexes
    }

    /** A new process opens the database a killed one left. */
    constructor (disk: Disk, life: nat)
      requires InIdOrder(disk.rows)
      ensures Valid() && Clean() && this.disk == disk && this.life == life
    {
      this.rows, this.column, this.indexes := disk.rows, disk.column, disk.indexes;
      this.disk, this.life := disk, life;
    }

    /** `commit`: atomic, or the process dies first. */
    method Commit() returns (alive: bool)
      requires Valid()
      modifies this`disk, this`life
      ensures Valid()
      ensures alive ==> disk == Disk(rows, column, indexes, old(disk.marker)) && Clean()
      ensures !alive ==> disk == old(disk)
      ensures if alive then life == old(life) - 1 else old(life) == 0
    {
      alive := life > 0;
      if alive {
        life := life - 1;
        disk := Disk(rows, column, indexes, disk.marker);
      }
    }

    /** `write_marker`: a kill inside it may leave the file torn. */
    method WriteMarker(after: Option<nat>, complete: bool) returns (alive: bool)
      requires Valid()
      modifies this`disk, this`life
      ensures Valid()
      ensures alive ==> disk == old(disk).(marker := Readable(after, complete))
      ensures !alive ==> disk == old(disk) || disk == old(disk).(marker := Unreadable)
      ensures if alive then life == old(life) - 1 else old(life) == 0
    {
      alive := life > 0;
      if alive {
        life := life - 1;
        disk := disk.(marker := Readable(after, complete));
      } else if * {
        disk := disk.(marker := Unreadable);
      }
    }

    /** `read_marker`: anything unreadable means "start at the beginning". */
    method ReadMarker() returns (after: Option<nat>, complete: bool)
      ensures disk.marker.Readable? ==> after == disk.marker.after && complete == disk.marker.complete
      ensures disk.marker.Unreadable? ==> after == None && !complete
    {
      match disk.marker
      case Unreadable => after, complete := None, false;
      case Readable(a, c) => after, complete := a, c;
    }

    /** One batch of `born_ts_counts`. */
    method CountBatch(start: nat) returns (seen: nat, filled: nat)
      requires start <= |rows|
      ensures start + seen <= |rows| && (seen == 0 <==> start == |rows|)
      ensures CountFilled(rows[start..]) == filled + CountFilled(rows[start + seen..])
    {
      seen, filled := 0, 0;
      while start + seen < |rows| && seen < BATCH
        invariant start + seen <= |rows|
        invariant CountFilled(rows[start..]) == filled + CountFilled(rows[start + seen..])
      {
        assert rows[start + seen..][1..] == rows[start + seen + 1..];
        if rows[start + seen].Filled() { filled := filled + 1; }
        seen := seen + 1;
      }
    }

    /** `born_ts_counts`: the proof read back off the rows, a batch at a time. */
    method BornTsCounts() returns (total: nat, filled: nat)
      requires Valid()
      ensures total == |rows| && filled == CountFilled(rows)
    {
      hide CountFilled, OnlyFills, ScanStart;
      total, filled := 0, 0;
      var after: Option<nat> := None;
      assert rows[0..] == rows;
      NoCursor(rows);
      while true
        invariant total <= |rows| && total == ScanStart(rows, after)
        invariant CountFilled(rows) == filled + CountFilled(rows[total..])
        decreases |rows| - total
      {
        var seen, more := CountBatch(ScanStart(rows, after));
        total, filled := total + seen, filled + more;
        if seen == 0 { break; }
        after := Some(rows[total - 1].id);
        ScanStartAt(rows, total - 1);
      }
      assert rows[total..] == [];
      CountNothing();
    }

    /** The scan of one batch, with the source's `continue` in front of its BATCH
        test: the rows walked, and the places of those still to fill. */
    method ScanBatch(start: nat) returns (r: Outcome<(nat, seq<nat>)>)
      requires start <= |rows|
      ensures !r.Killed?
      ensures r.Done? ==>
                var (seen, batch) := r.value;
                && seen == BatchLength(rows[start..])
                && (seen <= BATCH <==> |rows| <= start + BATCH || !rows[start + BATCH - 1].Filled())
                && forall i :: i in batch <==> start <= i < start + seen && !rows[i].Filled()
      ensures r.Refused? ==> HasBadRow(rows)
    {
      var seen := 0;
      var batch: seq<nat> := [];
      while start + seen < |rows|
        invariant start + seen <= |rows|
        invariant forall i :: i in batch <==> start <= i < start + seen && !rows[i].Filled()
        invariant seen >= BATCH ==> rows[start + BATCH - 1].Filled()
      {
        var at := start + seen;
        seen := seen + 1;
        if rows[at].Filled() { continue; }
        if rows[at].born.None? { return Refused; }
        batch := batch + [at];
        if seen == BATCH { break; }
      }
      r := Done((seen, batch));
    }

    /** The updates of one batch, in the handle only. */
    method UpdateBatch(batch: seq<nat>) returns (r: Outcome<()>)
      requires Valid() && forall i :: i in batch ==> i < |rows| && !rows[i].Filled()
      modifies this`rows
      ensures Valid() && OnlyFills(old(rows), rows) && !r.Killed?
      ensures r.Done? ==> forall i :: 0 <= i < |rows| ==> (rows[i].Filled() <==> old(rows[i].Filled()) || i in batch)
      ensures r.Refused? ==> HasBadRow(old(rows))
    {
      ghost var start := rows;
      for k := 0 to |batch|
        invariant Valid() && OnlyFills(start, rows)
        invariant forall i :: 0 <= i < |rows| ==> (rows[i].Filled() <==> start[i].Filled() || i in batch[..k])
      {
        var at := batch[k];
        assert at in batch;
        var ts := BornTs(rows[at].born);
        if ts.None? {
          assert !start[at].Filled() && BornTs(start[at].born).None?;
          return Refused;
        }
        rows := rows[at := rows[at].(ts := ts)];
        assert batch[..k + 1] == batch[..k] + [at];
      }
      assert batch[..|batch|] == batch;
      r := Done(());
    }

    /** The scan and the updates of one batch, in the handle only: the new cursor
        and how many rows it moves over. */
    method PrepareBatch(after: Option<nat>) returns (r: Outcome<(Option<nat>, nat)>)
      requires Valid() && Clean()
      modifies this`rows
      ensures Valid() && OnlyFills(disk.rows, rows) && !r.Killed?
      ensures r.Done? ==>
                var at, next, seen := ScanStart(disk.rows, after), r.value.0, r.value.1;
                && seen == BatchLength(disk.rows[at..]) && (seen == 0 ==> rows == disk.rows && next == after)
                && FilledBetween(rows, at, at + seen) && ScanStart(rows, next) == at + seen
                && (CursorSafe(after, disk.rows) ==> CursorSafe(next, rows))
      ensures r.Refused? ==> HasBadRow(disk.rows)
    {
      hide BatchLength, HasBadRow, ScanStart, OnlyFills, CursorSafe, FilledBetween, BornTs, InIdOrder;
      OnlyFillsItself(rows);
      var at := ScanStart(rows, after);
      var scan := ScanBatch(at);
      if !scan.Done? { return Refused; }
      var (seen, batch) := scan.value;
      BatchMoves(rows[at..]);
      NothingBetween(rows, at);
      if seen == 0 { return Done((after, 0)); }
      var last := Some(rows[at + seen - 1].id);
      var update := UpdateBatch(batch);
      SameLength(disk.rows, rows);
      if !update.Done? { return Refused; }
      BatchFills(disk.rows, rows, at, at, seen, batch);
      SameIds(disk.rows, rows, at + seen - 1);
      ScanStartAt(rows, at + seen - 1);
      CursorIsSafe(disk.rows, rows, after, last, at);
      r := Done((last, seen));
    }

    /** One turn of `fill_born_ts`: scan, update, commit, and only then the
        cursor.  Answers the new cursor and how many rows it moved over. */
    method FillBatch(after: Option<nat>) returns (r: Outcome<(Option<nat>, nat)>)
      requires Valid() && Clean()
      modifies this`rows, this`disk, this`life
      ensures Valid() && OnlyFills(old(disk.rows), disk.rows)
      ensures disk.column == old(disk.column) && disk.indexes == old(disk.indexes)
      ensures MarkerSafe(old(disk)) && CursorSafe(after, old(disk.rows)) ==> MarkerSafe(disk)
      ensures r.Done? ==>
                var at, next, seen := ScanStart(old(rows), after), r.value.0, r.value.1;
                && Clean() && seen == BatchLength(old(rows)[at..])
                && FilledBetween(rows, at, at + seen) && ScanStart(rows, next) == at + seen
                && (CursorSafe(after, old(rows)) ==> CursorSafe(next, rows))
                && life == old(life) - (if seen == 0 then 0 else 2)
      ensures r.Refused? ==> HasBadRow(old(disk.rows))
      ensures r.Killed? ==> old(life) < 2 && ScanStart(old(rows), after) < |old(rows)|
    {
      hide InIdOrder, BatchLength, HasBadRow, ScanStart, MarkerSafe, OnlyFills, CursorSafe, FilledBetween;
      ghost var was := disk;
      OnlyFillsItself(rows);
      BatchMoves(rows[ScanStart(rows, after)..]);
      r := PrepareBatch(after);
      if r.Refused? { return; }
      var (last, seen) := r.value;
      if seen == 0 { return; }
      var alive := Commit();
      if !alive { return Killed; }
      SafeGrows(was, disk);
      ghost var committed := disk;
      alive := WriteMarker(last, false);
      MarkerWritten(committed, disk, last, MarkerSafe(was) && CursorSafe(after, was.rows));
      if !alive { return Killed; }
    }

    /** `fill_born_ts`: every row past `from` is filled and committed, or the call
        refuses or dies; the cursor it leaves is safe if the one it was given is.
        It dies only if its life runs out first. */
    method FillBornTs(from: Option<nat>) returns (r: Outcome<()>)
      requires Valid() && Clean()
      modifies this`rows, this`disk, this`life
      ensures Valid() && OnlyFills(old(disk.rows), disk.rows)
      ensures disk.column == old(disk.column) && disk.indexes == old(disk.indexes)
      ensures MarkerSafe(old(disk)) && CursorSafe(from, old(disk.rows)) ==> MarkerSafe(disk)
      ensures r.Done? ==> Clean() && forall i :: 0 <= i < |rows| && !Passed(from, rows[i]) ==> rows[i].Filled()
      ensures r.Done? ==> old(life) - FillWrites(|old(rows)|) <= life
      ensures r.Refused? ==> HasBadRow(old(disk.rows))
      ensures r.Killed? ==> old(life) < FillWrites(|old(rows)|)
    {
      hide InIdOrder, HasBadRow, ScanStart, MarkerSafe, OnlyFills, CursorSafe, FilledBetween, BatchLength, FillWrites;
      ghost var was := disk;
      ghost var safe := MarkerSafe(disk) && CursorSafe(from, disk.rows);
      var after := from;
      ghost var first, at := ScanStart(rows, after), ScanStart(rows, after);
      OnlyFillsItself(rows);
      NothingBetween(rows, at);
      FewerWrites(|rows|, at);
      while true
        invariant Valid() && Clean() && OnlyFills(was.rows, rows) && |rows| == |was.rows|
        invariant disk.column == was.column && disk.indexes == was.indexes
        invariant at <= |rows| && at == ScanStart(rows, after) && FilledBetween(rows, first, at)
        invariant safe ==> MarkerSafe(disk) && CursorSafe(after, rows)
        invariant old(life) - FillWrites(|was.rows|) <= life - FillWrites(|rows| - at)
        decreases |was.rows| - at
      {
        ghost var before := disk;
        BatchCosts(before.rows[at..]);
        BatchMoves(before.rows[at..]);
        var turn := FillBatch(after);
        OnlyFillsTwice(was.rows, before.rows, disk.rows);
        SameLength(was.rows, disk.rows);
        if turn.Killed? { return Killed; }
        if turn.Refused? { BadRowBefore(was.rows, before.rows); return Refused; }
        var (next, seen) := turn.value;
        FilledFurther(before.rows, rows, first, at, at + seen);
        at := at + seen;
        if seen == 0 { break; }
        after := next;
      }
      ScanFinished(was.rows, rows, from, first);
      r := Done(());
    }

    /** `build`: commit what is there, finish the index, commit again. */
    method Build(name: string) returns (alive: bool)
      requires Valid() && rows == disk.rows
      modifies this`indexes, this`disk, this`life
      ensures Valid() && rows == disk.rows == old(disk.rows) && disk.marker == old(disk.marker)
      ensures alive ==> Clean() && indexes == old(indexes)[name := Ready]
      ensures disk.indexes == old(disk.indexes) || disk.indexes == old(indexes) || disk.indexes == old(indexes)[name := Ready]
      ensures if alive then life == old(life) - 2 else old(life) < 2
    {
      alive := Commit();
      if !alive { return; }
      indexes := indexes[name := Ready];
      alive := Commit();
    }

    /** Finish every listed index a kill left BUILDING. */
    method FinishBuilding(found: seq<(string, IndexState)>) returns (alive: bool)
      requires Valid() && Clean() && Lists(found, indexes)
      modifies this`indexes, this`disk, this`life
      ensures Valid() && rows == disk.rows == old(disk.rows) && disk.marker == old(disk.marker)
      ensures alive ==> Clean() && indexes.Keys == old(indexes).Keys
      ensures alive ==> forall name :: Has(found, name) ==> Built(old(indexes), indexes, name)
      ensures alive ==> forall name :: name in old(indexes) && old(indexes)[name].Dropping? ==> indexes[name].Dropping?
      ensures IndexesKept(old(disk.indexes), disk.indexes)
      ensures if alive then old(life) - 2 * |found| <= life else old(life) < 2 * |found|
    {
      ghost var was := indexes;
      KeptItself(was);
      for k := 0 to |found|
        invariant Valid() && Clean() && rows == disk.rows == old(disk.rows) && disk.marker == old(disk.marker)
        invariant indexes.Keys == was.Keys && old(life) - 2 * k <= life
        invariant forall name :: name in was ==> indexes[name] == was[name] || indexes[name].Ready?
        invariant forall j :: 0 <= j < k && found[j].1.Building? ==> indexes[found[j].0].Ready?
        invariant forall name :: name in was && was[name].Dropping? ==> indexes[name].Dropping?
        invariant IndexesKept(was, indexes)
      {
        assert found[k].0 in was;
        if found[k].1.Building? {
          KeptFinished(was, indexes, found[k].0);
          alive := Build(found[k].0);
          if !alive { return; }
        }
      }
      alive := true;
      forall name | Has(found, name) ensures Built(was, indexes, name) {
        var j :| 0 <= j < |found| && found[j].0 == name;
        assert name in was && was[name] == found[j].1;
      }
    }

    /** Finish every index a kill left BUILDING, and create the wanted ones that
        are not listed.  An index being dropped is left alone. */
    method BuildIndexes(found: seq<(string, IndexState)>) returns (r: Outcome<()>)
      requires Valid() && Clean() && Lists(found, indexes)
      modifies this`indexes, this`disk, this`life
      ensures Valid() && rows == disk.rows == old(disk.rows) && disk.marker == old(disk.marker)
      ensures r.Done? ==> Clean() && forall name :: IsWanted(name) ==> Built(old(indexes), indexes, name)
      ensures r.Done? ==> forall name :: IsWanted(name) && !Has(found, name) ==> name in indexes && indexes[name].Ready?
      ensures r.Done? ==> forall name :: name in old(indexes) && old(indexes)[name].Dropping? ==>
                name in indexes && indexes[name].Dropping?
      ensures IndexesKept(old(disk.indexes), disk.indexes)
      ensures r.Done? ==> old(life) - 2 * |found| - 7 <= life
      ensures r.Refused? ==> SomeUnlisted(old(indexes), found) || NoRoom(old(indexes))
      ensures r.Done? ==> !SomeUnlisted(old(indexes), found) && !NoRoom(old(indexes))
      ensures r.Killed? ==> old(life) < 2 * |found| + 7
    {
      hide Has, Lists, Built, Missing, UnderWay, Made, SomeUnlisted, NoRoom, IndexesKept;
      ghost var was := indexes;
      var alive := FinishBuilding(found);
      if !alive { return Killed; }
      StartsUnderWay(found, was, indexes);
      r := EnsureIndex(IX_BORN_TS, found, was);
      if !r.Done? { return; }
      r := EnsureIndex(IX_NAME, found, was);
      if !r.Done? { return; }
      r := EnsureIndex(IX_KIND_LOWER, found, was);
      if !r.Done? { return; }
      AllMade(found, was, indexes);
      alive := Commit();
      if !alive { return Killed; }
    }

    /** Create and build one wanted index that is not listed.  The engine refuses
        a name that is taken, and a sixty-fifth index. */
    method EnsureIndex(name: string, found: seq<(string, IndexState)>, ghost was: map<string, IndexState>)
      returns (r: Outcome<()>)
      requires Valid() && Clean() && IsWanted(name) && UnderWay(found, was, indexes)
      requires name in indexes ==> name in was
      requires IndexesKept(was, disk.indexes)
      modifies this`indexes, this`disk, this`life
      ensures Valid() && rows == disk.rows == old(disk.rows) && disk.marker == old(disk.marker)
      ensures r.Done? ==> Clean() && UnderWay(found, was, indexes) && Made(found, was, indexes, name)
      ensures r.Done? ==> forall n :: Made(found, was, old(indexes), n) ==> Made(found, was, indexes, n)
      ensures r.Done? ==> forall n :: n in indexes ==> n == name || n in old(indexes)
      ensures IndexesKept(was, disk.indexes)
      ensures r.Done? ==> old(life) - 2 <= life
      ensures r.Refused? ==> SomeUnlisted(was, found) || NoRoom(was)
      ensures r.Killed? ==> old(life) < 2
    {
      hide Has, UnderWay, Made, SomeUnlisted, NoRoom, IndexesKept;
      ghost var before := indexes;
      if Has(found, name) { ListedIsMade(found, was, indexes, name); return Done(()); }
      if name in indexes || |indexes| >= MAX_INDEXES { CannotMake(found, was, indexes, name); return Refused; }
      indexes := indexes[name := Building];
      KeptCreated(was, before, name);
      var alive := Build(name);
      if !alive { return Killed; }
      assert indexes == before[name := Ready];
      OneMore(found, was, before, name);
      r := Done(());
    }

    /** The assertion every measured run stands on: rows there are, all filled,
        and each wanted index that is listed Ready. */
    method FinalCheck(found: seq<(string, IndexState)>) returns (ok: bool)
      requires Valid()
      ensures ok <==>
              && rows != [] && AllFilled(rows)
              && forall name :: IsWanted(name) && Has(found, name) && name in indexes ==> indexes[name].Ready?
    {
      hide Has;
      var total, filled := BornTsCounts();
      CountProves(rows);
      if total == 0 { return false; }
      if total != filled { return false; }
      ok := StateOk(IX_BORN_TS, found) && StateOk(IX_NAME, found) && StateOk(IX_KIND_LOWER, found);
    }

    predicate StateOk(name: string, found: seq<(string, IndexState)>)
      reads this
    {
      Has(found, name) && name in indexes ==> indexes[name].Ready?
    }

    /** The row proof, and one pass from the start when it fails. */
    method Refill() returns (r: Outcome<()>)
      requires Valid() && Clean()
      modifies this`rows, this`disk, this`life
      ensures Valid() && OnlyFills(old(disk.rows), disk.rows)
      ensures disk.column == old(disk.column) && disk.indexes == old(disk.indexes)
      ensures MarkerSafe(old(disk)) ==> MarkerSafe(disk)
      ensures r.Done? ==> Clean() && AllFilled(rows)
      ensures r.Done? ==> old(life) - FillWrites(|old(rows)|) <= life
      ensures r.Refused? ==> HasBadRow(old(disk.rows))
      ensures r.Killed? ==> old(life) < FillWrites(|old(rows)|)
    {
      hide HasBadRow, MarkerSafe;
      OnlyFillsItself(rows);
      var total, filled := BornTsCounts();
      CountProves(rows);
      if total != filled {
        r := FillBornTs(None);
      } else {
        r := Done(());
      }
    }

    /** From the column on: add it if it is not there, fill from the cursor, and
        fill again from the start if the rows do not add up. */
    method FillColumn(resumeAt: Option<nat>) returns (r: Outcome<()>)
      requires Valid() && Clean() && (MarkerSafe(disk) ==> CursorSafe(resumeAt, disk.rows))
      modifies this`rows, this`column, this`disk, this`life
      ensures Valid() && OnlyFills(old(disk.rows), disk.rows) && disk.indexes == old(disk.indexes)
      ensures MarkerSafe(old(disk)) ==> MarkerSafe(disk)
      ensures r.Done? ==> Clean() && AllFilled(rows) && column
      ensures r.Done? ==> old(life) - 2 * FillWrites(|old(rows)|) - 1 <= life
      ensures r.Refused? ==> HasBadRow(old(disk.rows))
      ensures r.Killed? ==> old(life) < 2 * FillWrites(|old(rows)|) + 1
    {
      hide HasBadRow, MarkerSafe, OnlyFills, InIdOrder, AllFilled, CursorSafe, FillWrites;
      ghost var was := disk;
      OnlyFillsItself(rows);
      if !column {
        column := true;
        var alive := Commit();
        SafeGrows(was, disk);
        if !alive { return Killed; }
      }
      r := FillBornTs(resumeAt);
      SameLength(was.rows, disk.rows);
      if !r.Done? { return; }
      ghost var filledOnce := disk;
      r := Refill();
      OnlyFillsTwice(was.rows, filledOnce.rows, disk.rows);
      if r.Refused? { BadRowBefore(was.rows, filledOnce.rows); }
    }

    /** Once every row is filled: the indexes, the assertion and the marker. */
    method Finish(found: seq<(string, IndexState)>) returns (r: Outcome<bool>)
      requires Valid() && Clean() && Lists(found, indexes) && AllFilled(rows)
      modifies this`indexes, this`disk, this`life
      ensures Valid() && disk.rows == old(disk.rows)
      ensures MarkerSafe(old(disk)) ==> MarkerSafe(disk)
      ensures IndexesKept(old(disk.indexes), disk.indexes)
      ensures r.Done? ==> r.value && Provisioned(disk) && disk.rows != []
      ensures r.Done? ==> disk.column == old(column) && disk.marker == Readable(None, true)
      ensures r.Refused? ==> Hopeless(old(disk), found)
      ensures r.Done? ==> !Hopeless(old(disk), found)
      ensures r.Killed? ==> old(life) < 2 * |found| + 8
    {
      hide MarkerSafe, OnlyFills, InIdOrder, AllFilled, Has, Lists, Built, Missing, SomeUnlisted, NoRoom, HasBadRow,
        IndexesKept;
      ghost var was := disk;
      OnlyFillsItself(rows);
      var build := BuildIndexes(found);
      SafeGrows(was, disk);
      if build.Killed? { return Killed; }
      if build.Refused? { return Refused; }
      WantedOrDropping(was.indexes, indexes);
      var ok := FinalCheck(found);
      if !ok { return Refused; }
      AllReady(was.indexes, indexes, found);
      NotHopeless(was, indexes, found);
      ghost var checked := disk;
      var alive := WriteMarker(None, true);
      CompleteWritten(checked, disk);
      if !alive { return Killed; }
      r := Done(true);
    }

    /** `provision_functions`.  `Done(true)` is worth the same whatever cursor it
        started from; `Done(false)` trusts a marker, so it is worth as much as
        the marker; a run refuses only what is hopeless, and is killed only when
        its life is shorter than the writes a whole run makes. */
    method ProvisionFunctions(found: seq<(string, IndexState)>) returns (r: Outcome<bool>)
      requires Valid() && Clean() && Lists(found, indexes)
      modifies this
      ensures Valid() && Ran(found, old(disk), disk, r)
      ensures r.Killed? ==> old(life) < RunWrites(|old(rows)|, |found|)
      ensures old(life) >= RunWrites(|old(rows)|, |found|) && !Hopeless(old(disk), found) ==> r.Done?
      ensures r.Done? && !r.value <==>
              && ReadyIn(found, IX_BORN_TS) && ReadyIn(found, IX_NAME) && ReadyIn(found, IX_KIND_LOWER)
              && (ClaimsComplete(old(disk)) || (AllFilled(old(disk.rows)) && old(disk.rows) != [] && old(life) > 0))
    {
      hide Hopeless, MarkerSafe, OnlyFills, InIdOrder, AllFilled, CursorSafe, ReadyIn, Lists, FillWrites, HasBadRow,
        IndexesKept;
      ghost var was := disk;
      KeptItself(was.indexes);
      OnlyFillsItself(rows);
      var resumeAt, complete := ReadMarker();
      var allReady := ReadyIn(found, IX_BORN_TS) && ReadyIn(found, IX_NAME) && ReadyIn(found, IX_KIND_LOWER);
      if allReady { FoundReady(found, indexes); }
      CompleteMeansFilled(disk);
      if complete && allReady { return Done(false); }
      if allReady {
        var total, filled := BornTsCounts();
        CountProves(rows);
        if total == filled && total > 0 {
          var alive := WriteMarker(None, true);
          CompleteWritten(was, disk);
          if !alive { return Killed; }
          return Done(false);
        }
      }
      ResumeIsSafe(was, resumeAt);
      var fill := FillColumn(resumeAt);
      if fill.Killed? { return Killed; }
      if fill.Refused? { BadRowIsHopeless(was, found); return Refused; }
      ghost var filled := disk;
      r := Finish(found);
      if r.Refused? { HopelessBefore(was, filled, found); }
      if r.Done? { StillNotHopeless(was, filled, found); }
    }
  }

  // --------------------------------------------------- reading what was found

  /** The caller's list names indexes of the database with their states; it may
      leave some out, as it looks at the first 64 ids only. */
  predicate Lists(found: seq<(string, IndexState)>, indexes: map<string, IndexState>) {
    forall j :: 0 <= j < |found| ==> found[j].0 in indexes && indexes[found[j].0] == found[j].1
  }

  predicate Has(found: seq<(string, IndexState)>, name: string) {
    exists j :: 0 <= j < |found| && found[j].0 == name
  }

  predicate ReadyIn(found: seq<(string, IndexState)>, name: string) {
    exists j :: 0 <= j < |found| && found[j].0 == name && found[j].1.Ready?
  }

  /** An index is Ready unless it was being dropped. */
  predicate Built(was: map<string, IndexState>, indexes: map<string, IndexState>, name: string) {
    name in indexes && (indexes[name].Ready? || (name in was && was[name].Dropping?))
  }

  lemma FoundReady(found: seq<(string, IndexState)>, indexes: map<string, IndexState>)
    requires Lists(found, indexes)
    requires ReadyIn(found, IX_BORN_TS) && ReadyIn(found, IX_NAME) && ReadyIn(found, IX_KIND_LOWER)
    ensures WantedReady(indexes)
  {
  }

  /** Between two creations: listed indexes are built, those made here are Ready,
      and as many slots are taken or spoken for as at the start. */
  predicate UnderWay(found: seq<(string, IndexState)>, was: map<string, IndexState>, indexes: map<string, IndexState>) {
    && (forall n :: n in was ==> n in indexes)
    && (forall n :: n in indexes && Has(found, n) ==> Built(was, indexes, n))
    && (forall n :: n in indexes && n !in was ==> indexes[n].Ready?)
    && (forall j :: 0 <= j < |found| ==> found[j].0 in was)
    && (forall n :: n in was && was[n].Dropping? ==> indexes[n].Dropping?)
    && |indexes| + Missing(indexes) == |was| + Missing(was)
    && (Missing(indexes) < Missing(was) ==> |indexes| <= MAX_INDEXES)
  }

  /** A wanted index is built: a listed one, or one that was not there before. */
  predicate Made(found: seq<(string, IndexState)>, was: map<string, IndexState>, indexes: map<string, IndexState>, name: string) {
    Built(was, indexes, name) && (!Has(found, name) ==> indexes[name].Ready? && name !in was)
  }

  lemma StartsUnderWay(found: seq<(string, IndexState)>, was: map<string, IndexState>, indexes: map<string, IndexState>)
    requires Lists(found, was) && indexes.Keys == was.Keys
    requires forall n :: Has(found, n) ==> Built(was, indexes, n)
    requires forall n :: n in was && was[n].Dropping? ==> indexes[n].Dropping?
    ensures UnderWay(found, was, indexes)
  {
    SameKeys(was, indexes);
  }

  lemma ListedIsMade(found: seq<(string, IndexState)>, was: map<string, IndexState>, indexes: map<string, IndexState>, name: string)
    requires UnderWay(found, was, indexes) && Has(found, name)
    ensures Made(found, was, indexes, name)
  {
  }

  lemma CannotMake(found: seq<(string, IndexState)>, was: map<string, IndexState>, indexes: map<string, IndexState>, name: string)
    requires UnderWay(found, was, indexes) && IsWanted(name) && (name in indexes ==> name in was)
    requires !Has(found, name) && (name in indexes || |indexes| >= MAX_INDEXES)
    ensures SomeUnlisted(was, found) || NoRoom(was)
  {
    hide Has;
    if name !in indexes { assert Missing(indexes) >= 1 && Missing(was) >= Missing(indexes); }
  }

  lemma OneMore(found: seq<(string, IndexState)>, was: map<string, IndexState>, indexes: map<string, IndexState>, name: string)
    requires UnderWay(found, was, indexes) && IsWanted(name) && name !in indexes && !Has(found, name)
    requires |indexes| < MAX_INDEXES
    ensures var more := indexes[name := Ready];
            && UnderWay(found, was, more) && Made(found, was, more, name)
            && forall n :: Made(found, was, indexes, n) ==> Made(found, was, more, n)
  {
    hide Has;
    var more := indexes[name := Ready];
    assert |more| == |indexes| + 1 && Missing(more) == Missing(indexes) - 1;
  }

  lemma AllMade(found: seq<(string, IndexState)>, was: map<string, IndexState>, indexes: map<string, IndexState>)
    requires Made(found, was, indexes, IX_BORN_TS) && Made(found, was, indexes, IX_NAME)
    requires Made(found, was, indexes, IX_KIND_LOWER) && UnderWay(found, was, indexes)
    ensures !SomeUnlisted(was, found) && !NoRoom(was)
    ensures forall n :: n in was && was[n].Dropping? ==> n in indexes && indexes[n].Dropping?
    ensures forall name :: IsWanted(name) ==> Built(was, indexes, name)
    ensures forall name :: IsWanted(name) && !Has(found, name) ==> name in indexes && indexes[name].Ready?
  {
    hide Has;
  }

  /** What a run may do to the indexes: finish one left Building, or make a wanted
      one; nothing else, and none is lost. */
  predicate IndexesKept(was: map<string, IndexState>, indexes: map<string, IndexState>) {
    && (forall n :: n in was ==>
          n in indexes && (indexes[n] == was[n] || (was[n].Building? && indexes[n].Ready?)))
    && (forall n :: n in indexes && n !in was ==> IsWanted(n))
  }

  lemma KeptItself(was: map<string, IndexState>)
    ensures IndexesKept(was, was)
  {
  }

  lemma KeptFinished(was: map<string, IndexState>, indexes: map<string, IndexState>, name: string)
    requires IndexesKept(was, indexes) && name in was && was[name].Building?
    ensures IndexesKept(was, indexes[name := Ready])
  {
  }

  lemma KeptCreated(was: map<string, IndexState>, indexes: map<string, IndexState>, name: string)
    requires IndexesKept(was, indexes) && IsWanted(name) && name !in indexes
    ensures IndexesKept(was, indexes[name := Building]) && IndexesKept(was, indexes[name := Building][name := Ready])
  {
  }

  lemma SameKeys(a: map<string, IndexState>, b: map<string, IndexState>)
    requires a.Keys == b.Keys
    ensures |a| == |b| && Missing(a) == Missing(b)
  {
    assert |a.Keys| == |a| && |b.Keys| == |b|;
  }

  lemma NotHopeless(was: Disk, indexes: map<string, IndexState>, found: seq<(string, IndexState)>)
    requires was.rows != [] && AllFilled(was.rows) && WantedReady(indexes)
    requires !SomeUnlisted(was.indexes, found) && !NoRoom(was.indexes)
    requires forall n :: n in was.indexes && was.indexes[n].Dropping? ==> n in indexes && indexes[n].Dropping?
    ensures !Hopeless(was, found)
  {
    hide SomeUnlisted, NoRoom;
  }

  /** Listed indexes were looked at, and the others have just been built. */
  lemma AllReady(was: map<string, IndexState>, indexes: map<string, IndexState>, found: seq<(string, IndexState)>)
    requires IX_BORN_TS in indexes && IX_NAME in indexes && IX_KIND_LOWER in indexes
    requires forall name :: IsWanted(name) && Has(found, name) && name in indexes ==> indexes[name].Ready?
    requires forall name :: IsWanted(name) && !Has(found, name) ==> name in indexes && indexes[name].Ready?
    ensures WantedReady(indexes)
  {
    hide Has;
    assert IsWanted(IX_BORN_TS) && IsWanted(IX_NAME) && IsWanted(IX_KIND_LOWER);
  }

  lemma CompleteMeansFilled(d: Disk)
    ensures MarkerSafe(d) && d.marker.Readable? && d.marker.complete ==> AllFilled(d.rows)
  {
  }

  lemma CompleteWritten(d: Disk, d': Disk)
    requires AllFilled(d.rows)
    requires d' == d || d' == d.(marker := Unreadable) || d' == d.(marker := Readable(None, true))
    ensures MarkerSafe(d) ==> MarkerSafe(d')
  {
  }

  lemma ResumeIsSafe(d: Disk, after: Option<nat>)
    requires d.marker.Readable? ==> after == d.marker.after
    requires d.marker.Unreadable? ==> after == None
    ensures MarkerSafe(d) ==> CursorSafe(after, d.rows)
  {
  }

  lemma WantedOrDropping(was: map<string, IndexState>, indexes: map<string, IndexState>)
    requires forall name :: IsWanted(name) ==> Built(was, indexes, name)
    ensures IX_BORN_TS in indexes && IX_NAME in indexes && IX_KIND_LOWER in indexes
    ensures forall name :: IsWanted(name) && !indexes[name].Ready? ==> name in was && was[name].Dropping?
  {
    assert IsWanted(IX_BORN_TS) && IsWanted(IX_NAME) && IsWanted(IX_KIND_LOWER);
  }

  predicate ClaimsComplete(d: Disk) { d.marker.Readable? && d.marker.complete }

  /** What one run does to the disk. */
  ghost predicate Ran(found: seq<(string, IndexState)>, d: Disk, d': Disk, r: Outcome<bool>) {
    && OnlyFills(d.rows, d'.rows)
    && (MarkerSafe(d) ==> MarkerSafe(d'))
    && IndexesKept(d.indexes, d'.indexes)
    && (r.Done? ==> ClaimsComplete(d'))
    && (r.Done? && r.value ==>
          Provisioned(d') && d'.column && d'.rows != [] && d'.marker == Readable(None, true) && !Hopeless(d, found))
    && (r.Done? && !r.value ==>
          WantedReady(d'.indexes) && ((AllFilled(d'.rows) && d'.rows != []) || (d' == d && ClaimsComplete(d))))
    && (r.Refused? ==> Hopeless(d, found))
  }

  // ------------------------------------------------------------- whole runs

  /** What happens to a database over time: provisioning runs, each ending its own
      way, and the marker file lost or torn between them. */
  datatype Event = Run(found: seq<(string, IndexState)>, outcome: Outcome<bool>) | MarkerLost

  ghost predicate Happens(d: Disk, e: Event, d': Disk) {
    match e
    case Run(found, r) => Ran(found, d, d', r)
    case MarkerLost => d' == d.(marker := Unreadable)
  }

  ghost predicate IsHistory(states: seq<Disk>, events: seq<Event>) {
    && |states| == |events| + 1
    && forall i :: 0 <= i < |events| ==> Happens(states[i], events[i], states[i + 1])
  }

  /** Over every history that starts with no marker, however many runs are killed
      and wherever: no readable cursor passes an unfilled row, `complete` means
      filled, rows are only ever filled, every run that answers leaves the
      database provisioned, and from then on every row stays filled. */
  lemma {:induction false} EveryHistoryIsSafe(states: seq<Disk>, events: seq<Event>)
    requires IsHistory(states, events) && states[0].marker.Unreadable?
    ensures forall i :: 0 <= i < |states| ==> MarkerSafe(states[i]) && OnlyFills(states[0].rows, states[i].rows)
    ensures forall i :: 0 <= i < |events| && events[i].Run? && events[i].outcome.Done? ==> Provisioned(states[i + 1])
    ensures forall i, j :: 0 <= i < |events| && i < j < |states| && events[i].Run? && events[i].outcome.Done? ==>
              AllFilled(states[j].rows)
    decreases |events|
  {
    if events == [] {
      OnlyFillsItself(states[0].rows);
    } else {
      var n := |events| - 1;
      var states', events' := states[..|states| - 1], events[..n];
      assert forall i :: 0 <= i < |events'| ==> Happens(states'[i], events'[i], states'[i + 1]) by {
        forall i | 0 <= i < |events'| ensures Happens(states'[i], events'[i], states'[i + 1]) {
          assert Happens(states[i], events[i], states[i + 1]);
        }
      }
      EveryHistoryIsSafe(states', events');
      assert MarkerSafe(states'[n]);
      LastEventIsSafe(states[0].rows, states[n], events[n], states[n + 1]);
      assert forall i :: 0 <= i < |events'| ==> events'[i] == events[i];
      assert forall i :: 0 <= i < |states'| ==> states'[i] == states[i];
    }
  }

  lemma LastEventIsSafe(first: seq<Row>, d: Disk, e: Event, d': Disk)
    requires MarkerSafe(d) && OnlyFills(first, d.rows) && Happens(d, e, d')
    ensures MarkerSafe(d') && OnlyFills(first, d'.rows)
    ensures e.Run? && e.outcome.Done? ==> Provisioned(d')
    ensures AllFilled(d.rows) ==> AllFilled(d'.rows)
  {
  }

  predicate CursorSafe(cursor: Option<nat>, rows: seq<Row>) {
    forall i :: 0 <= i < |rows| && Passed(cursor, rows[i]) ==> rows[i].Filled()
  }

  lemma FilledFurther(before: seq<Row>, rows: seq<Row>, first: nat, at: nat, end: nat)
    requires OnlyFills(before, rows) && FilledBetween(before, first, at) && FilledBetween(rows, at, end)
    ensures FilledBetween(rows, first, end)
  {
  }

  /** A row that cannot be filled now could not be filled before. */
  lemma BadRowBefore(before: seq<Row>, rows: seq<Row>)
    requires OnlyFills(before, rows) && HasBadRow(rows)
    ensures HasBadRow(before)
  {
    var i :| 0 <= i < |rows| && !rows[i].Filled() && BornTs(rows[i].born).None?;
    assert !before[i].Filled() && BornTs(before[i].born).None?;
  }

  /** Rows that could all be filled held nothing that cannot be. */
  lemma NoBadRow(before: seq<Row>, rows: seq<Row>)
    requires OnlyFills(before, rows) && AllFilled(rows)
    ensures !HasBadRow(before)
  {
    forall i | 0 <= i < |before| && !before[i].Filled() ensures BornTs(before[i].born).Some? {
      assert rows[i].Filled();
    }
  }

  lemma StillNotHopeless(d: Disk, d': Disk, found: seq<(string, IndexState)>)
    requires OnlyFills(d.rows, d'.rows) && d.indexes == d'.indexes && AllFilled(d'.rows) && !Hopeless(d', found)
    ensures !Hopeless(d, found)
  {
    NoBadRow(d.rows, d'.rows);
    hide SomeUnlisted, NoRoom;
  }

  lemma BadRowIsHopeless(d: Disk, found: seq<(string, IndexState)>)
    requires HasBadRow(d.rows)
    ensures Hopeless(d, found)
  {
  }

  /** What is hopeless now was hopeless before any fill. */
  lemma HopelessBefore(d: Disk, d': Disk, found: seq<(string, IndexState)>)
    requires OnlyFills(d.rows, d'.rows) && d.indexes == d'.indexes && Hopeless(d', found)
    ensures Hopeless(d, found)
  {
    hide Has;
    if HasBadRow(d'.rows) { BadRowBefore(d.rows, d'.rows); }
  }

  lemma FewerWrites(n: nat, at: nat)
    requires at <= n
    ensures FillWrites(n - at) <= FillWrites(n)
  {
  }

  /** A batch costs two writes of what the rows ahead of it may cost. */
  lemma BatchCosts(rest: seq<Row>)
    ensures BatchLength(rest) <= |rest|
    ensures rest != [] ==> FillWrites(|rest| - BatchLength(rest)) + 2 <= FillWrites(|rest|)
  {
    if rest != [] { OneBatchLess(|rest|, BatchLength(rest)); }
  }

  lemma OneBatchLess(n: nat, seen: nat)
    requires 0 < n && (seen == n || seen == BATCH <= n)
    ensures FillWrites(n - seen) + 2 <= FillWrites(n)
  {
  }

  predicate FilledBetween(rows: seq<Row>, a: nat, b: nat) {
    a <= b <= |rows| && forall i :: a <= i < b ==> rows[i].Filled()
  }

  lemma NothingBetween(rows: seq<Row>, at: nat)
    requires at <= |rows|
    ensures FilledBetween(rows, at, at)
  {
  }

  lemma BatchFills(before: seq<Row>, rows: seq<Row>, first: nat, at: nat, seen: nat, batch: seq<nat>)
    requires OnlyFills(before, rows) && FilledBetween(before, first, at) && at + seen <= |rows|
    requires forall i :: i in batch <==> at <= i < at + seen && !before[i].Filled()
    requires forall i :: 0 <= i < |rows| ==> (rows[i].Filled() <==> before[i].Filled() || i in batch)
    ensures FilledBetween(rows, first, at + seen)
  {
  }

  lemma SameLength(a: seq<Row>, b: seq<Row>)
    requires OnlyFills(a, b)
    ensures |a| == |b|
  {
  }

  lemma SameIds(a: seq<Row>, b: seq<Row>, i: nat)
    requires OnlyFills(a, b) && i < |a|
    ensures |a| == |b| && a[i].id == b[i].id
  {
  }

  /** When the scan has nothing left, every row past the cursor is filled. */
  lemma ScanFinished(before: seq<Row>, rows: seq<Row>, from: Option<nat>, first: nat)
    requires InIdOrder(before) && OnlyFills(before, rows)
    requires first == ScanStart(before, from) && FilledBetween(rows, first, |rows|)
    ensures forall i :: 0 <= i < |rows| && !Passed(from, rows[i]) ==> rows[i].Filled()
  {
    ScanStartSplits(before, from);
  }

  lemma OnlyFillsItself(rows: seq<Row>)
    ensures OnlyFills(rows, rows)
  {
  }

  lemma OnlyFillsTwice(a: seq<Row>, b: seq<Row>, c: seq<Row>)
    requires OnlyFills(a, b) && OnlyFills(b, c)
    ensures OnlyFills(a, c)
  {
  }

  lemma BatchMoves(rest: seq<Row>)
    ensures BatchLength(rest) <= |rest| && (BatchLength(rest) == 0 <==> rest == [])
  {
  }

  /** Fills never make a safe marker unsafe. */
  lemma SafeGrows(d: Disk, d': Disk)
    requires d'.marker == d.marker && OnlyFills(d.rows, d'.rows)
    ensures MarkerSafe(d) ==> MarkerSafe(d')
  {
  }

  lemma CursorIsSafe(before: seq<Row>, rows: seq<Row>, from: Option<nat>, after: Option<nat>, first: nat)
    requires InIdOrder(before) && InIdOrder(rows) && OnlyFills(before, rows)
    requires first == ScanStart(before, from) || first == ScanStart(rows, from)
    requires first <= ScanStart(rows, after)
    requires FilledBetween(rows, first, ScanStart(rows, after))
    ensures CursorSafe(from, before) ==> CursorSafe(after, rows)
  {
    ScanStartSplits(before, from);
    ScanStartSplits(rows, from);
    ScanStartSplits(rows, after);
    ScanStartOfFilled(before, rows, from);
  }

  lemma {:induction false} ScanStartOfFilled(before: seq<Row>, rows: seq<Row>, cursor: Option<nat>)
    requires OnlyFills(before, rows)
    ensures ScanStart(before, cursor) == ScanStart(rows, cursor)
  {
    if rows != [] { ScanStartOfFilled(before[1..], rows[1..], cursor); }
  }

  /** Writing a safe cursor, whole or torn, leaves a safe marker. */
  lemma MarkerWritten(d: Disk, d': Disk, after: Option<nat>, safe: bool)
    requires safe ==> MarkerSafe(d) && CursorSafe(after, d.rows)
    requires d' == d || d' == d.(marker := Unreadable) || d' == d.(marker := Readable(after, false))
    ensures safe ==> MarkerSafe(d')
  {
  }

  lemma NoCursor(rows: seq<Row>)
    ensures ScanStart(rows, None) == 0
  {
  }

  lemma CountNothing()
    ensures CountFilled([]) == 0
  {
  }
}
