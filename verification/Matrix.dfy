/** The switch matrix: scanning in both diode directions and the global deferred
    debounce. A 32-bit row word is the set of its one bits. */
module Matrix {
  import opened Bytes

  type Row = set<nat>
  datatype Direction = ColToRow | RowToCol
  datatype Line = RowLine(index: nat) | ColumnLine(index: nat)

  /** The lines of the matrix: a line reads low exactly when a closed switch joins it to a
      driven line. */
  class MatrixIO {
    var closed: set<(nat, nat)>
    var driven: set<Line>

    predicate Joined(a: Line, b: Line)
      reads this`closed
    {
      match (a, b)
      case (RowLine(r), ColumnLine(c)) => (r, c) in closed
      case (ColumnLine(c), RowLine(r)) => (r, c) in closed
      case _ => false
    }

    method DriveLow(line: Line)
      modifies this`driven
      ensures driven == old(driven) + {line}
    {
      driven := driven + {line};
    }

    method Release(line: Line)
      modifies this`driven
      ensures driven == old(driven) - {line}
    {
      driven := driven - {line};
    }

    method Read(line: Line) returns (high: bool)
      ensures high <==> forall d :: d in driven ==> !Joined(d, line)
    {
      high := forall d :: d in driven ==> !Joined(d, line);
    }
  }

  /** The row words the closed switches mean. */
  function RawOf(closed: set<(nat, nat)>, rows: nat, columns: nat): (raw: seq<Row>)
    ensures |raw| == rows
  {
    seq(rows, r requires 0 <= r < rows => set c | 0 <= c < columns && (r, c) in closed)
  }

  function Xor(a: Row, b: Row): Row { (a - b) + (b - a) }

  function XorRows(a: seq<Row>, b: seq<Row>): (r: seq<Row>)
    requires |a| == |b|
    ensures |r| == |a|
  {
    seq(|a|, i requires 0 <= i < |a| => Xor(a[i], b[i]))
  }

  function NoRows(rows: nat): (r: seq<Row>)
    ensures |r| == rows
  {
    seq(rows, _ => {})
  }

  datatype MatrixView = MatrixView(prev: seq<Row>, candidate: seq<Row>, stable: seq<Row>, changed: seq<Row>,
                                   last: uint32, pending: bool) {
    predicate Sized(rows: nat) {
      |prev| == |candidate| == |stable| == |changed| == rows
    }
  }

  function Publish(v: MatrixView): MatrixView
    requires |v.stable| == |v.candidate|
  {
    v.(stable := v.candidate, changed := XorRows(v.stable, v.candidate), pending := false)
  }

  /** One scan: a different raw matrix restarts the debounce, an unchanged one is
      published when the clock says it has been long enough. */
  function Scanned(v: MatrixView, raw: seq<Row>, ms: uint32, debounceMs: nat): (r: MatrixView)
    requires v.Sized(|raw|)
    ensures r.Sized(|raw|)
  {
    if raw != v.prev then
      var w := v.(prev := raw, candidate := raw, last := ms, pending := true);
      if debounceMs == 0 then Publish(w) else w
    else if v.pending && (ms - v.last) % WORD_LIMIT >= debounceMs then Publish(v)
    else v
  }

  /** The rest of a running debounce. */
  function Wait(pending: bool, last: uint32, now: uint32, debounceMs: nat): nat {
    if !pending then 0
    else
      var elapsed := (now - last) % WORD_LIMIT;
      if elapsed < debounceMs then debounceMs - elapsed else 0
  }

  /** The wait is neither too long nor too short: with the switches at rest no scan before
      its end changes anything, and the scan at its end publishes. */
  lemma WaitIsTight(v: MatrixView, raw: seq<Row>, now: uint32, debounceMs: nat, d: nat)
    requires v.Sized(|raw|) && v.pending && raw == v.prev && debounceMs < 0x1_0000
    requires d <= Wait(v.pending, v.last, now, debounceMs)
    ensures Scanned(v, raw, (now + d) % WORD_LIMIT, debounceMs)
            == if d < Wait(v.pending, v.last, now, debounceMs) then v else Publish(v)
  {
    hide Publish;
    LaterElapsed(v.last, now, d);
  }

  lemma LaterElapsed(last: uint32, now: uint32, d: nat)
    ensures (now - last) % WORD_LIMIT + d < WORD_LIMIT ==>
              ((now + d) % WORD_LIMIT - last) % WORD_LIMIT == (now - last) % WORD_LIMIT + d
  {
  }

  class Matrix {
    const rows: nat
    const columns: nat
    const direction: Direction
    const debounceMs: nat
    const io: MatrixIO
    const rawRows: array<Row>
    const prevRaw: array<Row>
    const candidateRows: array<Row>
    const stableRows: array<Row>
    const changedRows: array<Row>
    var lastRawChange: uint32
    var debouncePending: bool

    ghost predicate Valid()
      reads this
    {
      && rawRows.Length == prevRaw.Length == candidateRows.Length == stableRows.Length == changedRows.Length == rows
      && rawRows != prevRaw && rawRows != candidateRows && rawRows != stableRows && rawRows != changedRows
      && prevRaw != candidateRows && prevRaw != stableRows && prevRaw != changedRows
      && candidateRows != stableRows && candidateRows != changedRows && stableRows != changedRows
    }

    ghost function View(): (v: MatrixView)
      requires Valid()
      reads this, prevRaw, candidateRows, stableRows, changedRows
      ensures v.Sized(rows)
    {
      MatrixView(prevRaw[..], candidateRows[..], stableRows[..], changedRows[..], lastRawChange, debouncePending)
    }

    constructor (rows: nat, columns: nat, direction: Direction, debounceMs: nat, io: MatrixIO)
      ensures Valid() && this.rows == rows && this.columns == columns && this.debounceMs == debounceMs && this.io == io
      ensures fresh(rawRows) && fresh(prevRaw) && fresh(candidateRows) && fresh(stableRows) && fresh(changedRows)
      ensures View() == MatrixView(NoRows(rows), NoRows(rows), NoRows(rows), NoRows(rows), 0, false)
    {
      this.rows, this.columns, this.direction, this.debounceMs, this.io := rows, columns, direction, debounceMs, io;
      rawRows := new Row[rows](_ => {});
      prevRaw := new Row[rows](_ => {});
      candidateRows := new Row[rows](_ => {});
      stableRows := new Row[rows](_ => {});
      changedRows := new Row[rows](_ => {});
      lastRawChange, debouncePending := 0, false;
    }

    /** Rows driven one after another, columns read. */
    method ScanByRows()
      requires Valid() && io.driven == {}
      modifies rawRows, io`driven
      ensures io.driven == {} && rawRows[..] == RawOf(io.closed, rows, columns)
      ensures forall r, c :: 0 <= r < rows && 0 <= c < columns ==> (c in rawRows[r] <==> (r, c) in io.closed)
    {
      ghost var raw := RawOf(io.closed, rows, columns);
      for r := 0 to rows
        invariant io.driven == {}
        invariant forall k :: 0 <= k < r ==> rawRows[k] == raw[k]
      {
        io.DriveLow(RowLine(r));
        var rowVal: Row := {};
        for c := 0 to columns
          invariant io.driven == {RowLine(r)} && forall k :: 0 <= k < r ==> rawRows[k] == raw[k]
          invariant rowVal == set k | 0 <= k < c && (r, k) in io.closed
        {
          var high := io.Read(ColumnLine(c));
          assert io.Joined(RowLine(r), ColumnLine(c)) <==> (r, c) in io.closed;
          if !high {
            rowVal := rowVal + {c};
          }
        }
        assert rowVal == raw[r];
        rawRows[r] := rowVal;
        io.Release(RowLine(r));
      }
      assert rawRows[..] == RawOf(io.closed, rows, columns);
    }

    /** Columns driven one after another, rows read. */
    method ScanByColumns()
      requires Valid() && io.driven == {}
      modifies rawRows, io`driven
      ensures io.driven == {} && rawRows[..] == RawOf(io.closed, rows, columns)
      ensures forall r, c :: 0 <= r < rows && 0 <= c < columns ==> (c in rawRows[r] <==> (r, c) in io.closed)
    {
      for r := 0 to rows
        invariant io.driven == {}
        invariant forall k :: 0 <= k < r ==> rawRows[k] == {}
      {
        rawRows[r] := {};
      }
      for c := 0 to columns
        invariant io.driven == {}
        invariant forall r :: 0 <= r < rows ==> rawRows[r] == set k | 0 <= k < c && (r, k) in io.closed
      {
        io.DriveLow(ColumnLine(c));
        for r := 0 to rows
          invariant io.driven == {ColumnLine(c)}
          invariant forall q :: r <= q < rows ==> rawRows[q] == set k | 0 <= k < c && (q, k) in io.closed
          invariant forall q :: 0 <= q < r ==> rawRows[q] == set k | 0 <= k < c + 1 && (q, k) in io.closed
        {
          var high := io.Read(RowLine(r));
          assert io.Joined(ColumnLine(c), RowLine(r)) <==> (r, c) in io.closed;
          if !high {
            rawRows[r] := rawRows[r] + {c};
          }
        }
        io.Release(ColumnLine(c));
      }
      assert rawRows[..] == RawOf(io.closed, rows, columns);
    }

    /** Copies one array of rows over another. */
    method CopyRows(dst: array<Row>, src: array<Row>)
      requires dst.Length == src.Length && dst != src
      modifies dst
      ensures dst[..] == src[..]
    {
      for r := 0 to dst.Length
        invariant dst[..r] == src[..r]
      {
        dst[r] := src[r];
      }
    }

    /** The candidate becomes stable; what differs is reported as changed. */
    method PublishRows()
      requires Valid()
      modifies stableRows, changedRows, this`debouncePending
      ensures Valid() && View() == Publish(old(View()))
    {
      for r := 0 to rows
        invariant forall k :: 0 <= k < rows ==> stableRows[k] == if k < r then candidateRows[k] else old(stableRows[k])
        invariant forall k :: 0 <= k < rows ==>
                    changedRows[k] == if k < r then Xor(old(stableRows[k]), candidateRows[k]) else old(changedRows[k])
      {
        var prev := stableRows[r];
        stableRows[r] := candidateRows[r];
        changedRows[r] := Xor(prev, stableRows[r]);
      }
      debouncePending := false;
      assert stableRows[..] == candidateRows[..];
      assert changedRows[..] == XorRows(old(stableRows[..]), candidateRows[..]);
    }

    method Task(ms: uint32)
      requires Valid() && io.driven == {}
      modifies this, rawRows, prevRaw, candidateRows, stableRows, changedRows, io`driven
      ensures Valid() && io.driven == {}
      ensures rawRows[..] == RawOf(io.closed, rows, columns)
      ensures View() == Scanned(old(View()), RawOf(io.closed, rows, columns), ms, debounceMs)
    {
      if direction == ColToRow {
        ScanByRows();
      } else {
        ScanByColumns();
      }
      var rawChanged := false;
      for r := 0 to rows
        invariant rawChanged <==> exists k :: 0 <= k < r && rawRows[k] != prevRaw[k]
      {
        if rawRows[r] != prevRaw[r] {
          rawChanged := true;
        }
      }
      assert rawChanged <==> rawRows[..] != prevRaw[..] by {
        if rawRows[..] == prevRaw[..] {
          assert forall k :: 0 <= k < rows ==> rawRows[..][k] == prevRaw[..][k];
        }
      }
      if rawChanged {
        CopyRows(candidateRows, rawRows);
        CopyRows(prevRaw, rawRows);
        lastRawChange := ms;
        debouncePending := true;
        if debounceMs == 0 {
          PublishRows();
        }
        return;
      }
      if debouncePending {
        var elapsed := (ms - lastRawChange) % WORD_LIMIT;
        if elapsed >= debounceMs {
          PublishRows();
        }
      }
    }

    /** Reports whether any row changed and clears the reports. */
    method HasChanged() returns (any: bool)
      requires Valid()
      modifies changedRows
      ensures any <==> old(changedRows[..]) != NoRows(rows)
      ensures changedRows[..] == NoRows(rows)
    {
      any := false;
      for r := 0 to rows
        invariant any <==> exists k :: 0 <= k < r && old(changedRows[k]) != {}
        invariant changedRows[..] == old(changedRows[..])
      {
        if changedRows[r] != {} {
          any := true;
        }
      }
      assert !any ==> changedRows[..] == NoRows(rows);
      if any {
        for r := 0 to rows
          invariant forall k :: 0 <= k < r ==> changedRows[k] == {}
        {
          changedRows[r] := {};
        }
      }
      assert changedRows[..] == NoRows(rows);
      assert any ==> old(changedRows[..]) != NoRows(rows) by {
        if any {
          var k :| 0 <= k < rows && old(changedRows[k]) != {};
          assert old(changedRows[..])[k] != NoRows(rows)[k];
        }
      }
    }
  }

  // ----- timed runs

  /** Scans at real, never decreasing times; the clock shows them modulo 2^32. */
  ghost predicate IsTrace(rows: nat, raws: seq<seq<Row>>, times: seq<nat>) {
    && |raws| == |times|
    && (forall i :: 0 <= i < |raws| ==> |raws[i]| == rows)
    && (forall i, j :: 0 <= i <= j < |times| ==> times[i] <= times[j])
  }

  function Initial(rows: nat): (v: MatrixView)
    ensures v.Sized(rows)
  {
    MatrixView(NoRows(rows), NoRows(rows), NoRows(rows), NoRows(rows), 0, false)
  }

  /** The state before scan `i`. */
  function Before(rows: nat, raws: seq<seq<Row>>, times: seq<nat>, debounceMs: nat, i: nat): (v: MatrixView)
    requires i <= |raws| == |times| && forall k :: 0 <= k < |raws| ==> |raws[k]| == rows
    ensures v.Sized(rows)
  {
    if i == 0 then Initial(rows)
    else Scanned(Before(rows, raws, times, debounceMs, i - 1), raws[i - 1], times[i - 1] % WORD_LIMIT, debounceMs)
  }

  /** The raw matrix seen before scan `i`. */
  function Seen(rows: nat, raws: seq<seq<Row>>, i: nat): seq<Row>
    requires i <= |raws|
  {
    if i == 0 then NoRows(rows) else raws[i - 1]
  }

  /** The scan, before `i`, at which the raw matrix last became different; -1 if none. */
  function LastChange(rows: nat, raws: seq<seq<Row>>, i: nat): (j: int)
    requires i <= |raws|
    ensures -1 <= j < i
  {
    if i == 0 then -1
    else if raws[i - 1] != Seen(rows, raws, i - 1) then i - 1
    else LastChange(rows, raws, i - 1)
  }

  lemma {:induction false} TraceInv(rows: nat, raws: seq<seq<Row>>, times: seq<nat>, debounceMs: nat, i: nat)
    requires IsTrace(rows, raws, times) && i <= |raws|
    ensures var v, j := Before(rows, raws, times, debounceMs, i), LastChange(rows, raws, i);
            && v.prev == v.candidate == Seen(rows, raws, i)
            && (!v.pending ==> v.stable == v.candidate)
            && (v.pending ==> j >= 0 && v.last == times[j] % WORD_LIMIT)
            && (forall k :: 0 <= k && j <= k < i ==> raws[k] == Seen(rows, raws, i))
  {
    if i == 0 {
    } else {
      TraceInv(rows, raws, times, debounceMs, i - 1);
    }
  }

  /** Stable rows change only at a scan at which the whole raw matrix has been the same
      for at least the debounce time, also across wrap-around of the clock. */
  lemma ChangesOnlyAfterHold(rows: nat, raws: seq<seq<Row>>, times: seq<nat>, debounceMs: nat, i: nat)
    requires IsTrace(rows, raws, times) && i < |raws| && debounceMs > 0
    requires Before(rows, raws, times, debounceMs, i + 1).stable != Before(rows, raws, times, debounceMs, i).stable
    ensures Before(rows, raws, times, debounceMs, i + 1).stable == raws[i]
    ensures exists j :: 0 <= j < i && times[i] - times[j] >= debounceMs
                        && forall k :: j <= k <= i ==> raws[k] == raws[i]
  {
    TraceInv(rows, raws, times, debounceMs, i);
    var j := LastChange(rows, raws, i);
    ElapsedBelow(times[i], times[j]);
    assert 0 <= j < i && times[i] - times[j] >= debounceMs;
  }

  lemma ElapsedBelow(now: nat, since: nat)
    requires since <= now
    ensures ((now % WORD_LIMIT) - (since % WORD_LIMIT)) % WORD_LIMIT == (now - since) % WORD_LIMIT <= now - since
  {
    var a, b := now / WORD_LIMIT, since / WORD_LIMIT;
    assert now == a * WORD_LIMIT + now % WORD_LIMIT && since == b * WORD_LIMIT + since % WORD_LIMIT;
  }

  /** Some scan since the change at scan `j` came late enough on the clock. */
  predicate DueBy(times: seq<nat>, debounceMs: nat, j: nat, i: nat)
    requires j <= i < |times|
  {
    debounceMs == 0 || exists k :: j < k <= i && (times[k] - times[j]) % WORD_LIMIT >= debounceMs
  }

  /** A raw matrix that appeared at scan `j` and is held through scan `i` is published by then
      if and only if some scan since came when the clock showed the debounce time, or the
      debounce time is zero; otherwise the stable rows are as before it appeared. So it is
      published by any scan that comes at least the debounce time and less than one clock
      period after it appeared. */
  lemma {:induction false} HeldIsPublished(rows: nat, raws: seq<seq<Row>>, times: seq<nat>, debounceMs: nat, j: nat,
      i: nat)
    requires IsTrace(rows, raws, times) && j <= i < |raws|
    requires raws[j] != Seen(rows, raws, j) && forall k :: j <= k <= i ==> raws[k] == raws[j]
    ensures var v := Before(rows, raws, times, debounceMs, i + 1);
            && v.pending == !DueBy(times, debounceMs, j, i)
            && v.stable == if DueBy(times, debounceMs, j, i) then raws[j]
                 else Before(rows, raws, times, debounceMs, j).stable
    ensures j < i && debounceMs <= times[i] - times[j] < WORD_LIMIT ==>
              Before(rows, raws, times, debounceMs, i + 1).stable == raws[j]
  {
    hide Scanned;
    TraceInv(rows, raws, times, debounceMs, i);
    var v := Before(rows, raws, times, debounceMs, i);
    if i == j {
      AppearStep(v, raws[j], times[j] % WORD_LIMIT, debounceMs);
    } else {
      HeldIsPublished(rows, raws, times, debounceMs, j, i - 1);
      SteadySince(rows, raws, j, i);
      HeldStep(v, raws[j], times[j], times[i], debounceMs);
      DueStep(times, debounceMs, j, i);
    }
  }

  /** A scan that sees a different matrix starts the debounce, or publishes without one. */
  lemma AppearStep(v: MatrixView, raw: seq<Row>, ms: uint32, debounceMs: nat)
    requires v.Sized(|raw|) && raw != v.prev
    ensures var r := Scanned(v, raw, ms, debounceMs);
            r.pending == (debounceMs != 0) && r.stable == if debounceMs == 0 then raw else v.stable
  {
  }

  /** A scan that sees the same matrix publishes when the clock shows the debounce time. */
  lemma HeldStep(v: MatrixView, raw: seq<Row>, since: nat, now: nat, debounceMs: nat)
    requires v.Sized(|raw|) && v.prev == v.candidate == raw && since <= now
    requires v.pending ==> v.last == since % WORD_LIMIT
    ensures var r := Scanned(v, raw, now % WORD_LIMIT, debounceMs);
            var due := v.pending && (now - since) % WORD_LIMIT >= debounceMs;
            r.pending == (v.pending && !due) && r.stable == if due then raw else v.stable
    ensures (now - since) % WORD_LIMIT <= now - since
    ensures now - since < WORD_LIMIT ==> (now - since) % WORD_LIMIT == now - since
  {
    ElapsedBelow(now, since);
  }

  lemma DueStep(times: seq<nat>, debounceMs: nat, j: nat, i: nat)
    requires j < i < |times|
    ensures DueBy(times, debounceMs, j, i) <==>
            DueBy(times, debounceMs, j, i - 1) || (times[i] - times[j]) % WORD_LIMIT >= debounceMs
  {
  }

  lemma {:induction false} SteadySince(rows: nat, raws: seq<seq<Row>>, j: nat, i: nat)
    requires j < i <= |raws| && raws[j] != Seen(rows, raws, j) && forall k :: j <= k < i ==> raws[k] == raws[j]
    ensures LastChange(rows, raws, i) == j
  {
    if i == j + 1 {
    } else {
      SteadySince(rows, raws, j, i - 1);
    }
  }

  /** After a scan that found no unread changes, the reported changes are exactly the
      difference between the stable rows before and after it. */
  lemma ScanReportsDifference(v: MatrixView, raw: seq<Row>, ms: uint32, debounceMs: nat)
    requires v.Sized(|raw|) && v.changed == NoRows(|raw|)
    ensures Scanned(v, raw, ms, debounceMs).changed == XorRows(v.stable, Scanned(v, raw, ms, debounceMs).stable)
  {
    forall i | 0 <= i < |raw| ensures XorRows(v.stable, v.stable)[i] == NoRows(|raw|)[i] {
      assert Xor(v.stable[i], v.stable[i]) == {};
    }
    assert XorRows(v.stable, v.stable) == NoRows(|raw|);
  }
}
