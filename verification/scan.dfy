/** The key matrix scanner of firmware/src/keys/scan.rs: one integrating
    debouncer per switch, four rows of five columns, and the mapping of the
    debounced readings to press and release events. Driving the row pins
    and sampling the column pins is hardware; the sampled levels are an
    input. */
module Scan {

  import opened Util
  import opened KeyEvent

  /** The integrator bound `MAX` the scanner instantiates. */
  const DEBOUNCE_PERIOD: u8 := 4
  const ROWS: nat := 4
  const COLS: nat := 5

  datatype Debouncer = Debouncer(integrator: u8, isHigh: bool)

  /** `Default` (and `new`): integrator 0, low. */
  const RESET: Debouncer := Debouncer(0, false)

  /** A low sample: the integrator steps down, saturating at 0; reaching 0
      (or staying there) reports the key released. */
  function Decrement(d: Debouncer): (r: (Debouncer, Option<bool>))
    ensures r.0.integrator == d.integrator - 1 || r.0.integrator == d.integrator == 0
    ensures r.1 == Some(false) <==> r.0.integrator == 0
    ensures r.1 != Some(true)
    ensures r.1 == Some(false) ==> !r.0.isHigh
    ensures r.1 == None ==> r.0.isHigh == d.isHigh
  {
    var i := if d.integrator == 0 then 0 else d.integrator - 1;
    if i == 0 then (Debouncer(i, false), Some(false)) else (d.(integrator := i), None)
  }

  /** A high sample: at or above `max` the key is reported pressed and the
      integrator is left alone; below it, the integrator steps up. */
  function Increment(d: Debouncer, max: u8): (r: (Debouncer, Option<bool>))
    ensures d.integrator >= max ==> r.1 == Some(true) && r.0 == Debouncer(d.integrator, true)
    ensures d.integrator < max ==> r.1 == None && r.0 == Debouncer(d.integrator + 1, d.isHigh)
    ensures d.integrator <= max ==> r.0.integrator <= max
  {
    if d.integrator >= max then (d.(isHigh := true), Some(true))
    // below max <= 255, so the saturating add never saturates
    else (d.(integrator := d.integrator + 1), None)
  }

  function Update(d: Debouncer, level: bool, max: u8): (r: (Debouncer, Option<bool>))
    ensures r.1.Some? ==> r.1.value == level
    ensures r.1.Some? ==> r.0.isHigh == level
    ensures d.integrator <= max ==> r.0.integrator <= max
  {
    if level then Increment(d, max) else Decrement(d)
  }

  /** A debouncer fed a sequence of samples, with the report of each. */
  function Feed(d: Debouncer, levels: seq<bool>, max: u8): (r: (Debouncer, seq<Option<bool>>))
    ensures |r.1| == |levels|
    ensures d.integrator <= max ==> r.0.integrator <= max
    decreases |levels|
  {
    if levels == [] then (d, [])
    else
      var (d1, o) := Update(d, levels[0], max);
      var (d2, os) := Feed(d1, levels[1..], max);
      (d2, [o] + os)
  }

  lemma {:induction false} FeedAppend(d: Debouncer, a: seq<bool>, b: seq<bool>, max: u8)
    ensures Feed(d, a + b, max).0 == Feed(Feed(d, a, max).0, b, max).0
    ensures Feed(d, a + b, max).1 == Feed(d, a, max).1 + Feed(Feed(d, a, max).0, b, max).1
    decreases |a|
  {
    if a == [] {
      assert a + b == b;
    } else {
      assert (a + b)[1..] == a[1..] + b;
      FeedAppend(Update(d, a[0], max).0, a[1..], b, max);
    }
  }

  /** Below the bound, each high sample raises the integrator by one and
      reports nothing. */
  lemma {:induction false} RisingRun(d: Debouncer, n: nat, max: u8)
    requires d.integrator + n <= max
    ensures Feed(d, Repeat(true, n), max) == (Debouncer(d.integrator + n, d.isHigh), Repeat<Option<bool>>(None, n))
    decreases n
  {
    if n > 0 {
      assert Repeat(true, n)[1..] == Repeat(true, n - 1);
      RisingRun(Update(d, true, max).0, n - 1, max);
      assert [None] + Repeat<Option<bool>>(None, n - 1) == Repeat<Option<bool>>(None, n);
    }
  }

  /** From reset, the first press is reported on sample `max + 1`: `max`
      silent samples, then Some(true). */
  lemma FirstPressAfterBound(max: u8)
    ensures Feed(RESET, Repeat(true, max + 1), max).1 == Repeat<Option<bool>>(None, max) + [Some(true)]
  {
    assert Repeat(true, max + 1) == Repeat(true, max) + [true];
    FeedAppend(RESET, Repeat(true, max), [true], max);
    RisingRun(RESET, max, max);
  }

  /** With the scanner's bound 4, that is the fifth high sample. */
  lemma FifthSamplePresses()
    ensures Feed(RESET, Repeat(true, 5), DEBOUNCE_PERIOD).1
      == [None, None, None, None, Some(true)]
  {
    FirstPressAfterBound(DEBOUNCE_PERIOD);
  }

  /** Not edge-triggered: once at the bound, every further high sample
      reports Some(true) again. */
  lemma {:induction false} HeldHighReportsEverySample(d: Debouncer, n: nat, max: u8)
    requires d.integrator == max
    ensures forall i :: 0 <= i < n ==> Feed(d, Repeat(true, n), max).1[i] == Some(true)
    decreases n
  {
    if n > 0 {
      assert Repeat(true, n)[1..] == Repeat(true, n - 1);
      HeldHighReportsEverySample(Update(d, true, max).0, n - 1, max);
    }
  }

  /** Likewise a low input, once the integrator is at 0 or 1, reports
      Some(false) on every sample. */
  lemma {:induction false} HeldLowReportsEverySample(d: Debouncer, n: nat, max: u8)
    requires d.integrator <= 1
    ensures forall i :: 0 <= i < n ==> Feed(d, Repeat(false, n), max).1[i] == Some(false)
    decreases n
  {
    if n > 0 {
      assert Repeat(false, n)[1..] == Repeat(false, n - 1);
      HeldLowReportsEverySample(Update(d, false, max).0, n - 1, max);
    }
  }

  /** The event for one debounced reading. */
  function ToEvent(row: u8, col: u8, pressed: bool): Event
  {
    if pressed then Press(row, col) else Release(row, col)
  }

  /** Row-major order on key coordinates. */
  predicate Before(a: Event, b: Event)
  {
    a.row < b.row || (a.row == b.row && a.col < b.col)
  }

  /** The events of one row's readings, by ascending column. */
  function RowEvents(row: u8, cells: seq<Option<bool>>): (es: seq<Event>)
    requires |cells| <= U8_LIMIT
    ensures forall e :: e in es ==> e.row == row && e.col < |cells|
    ensures forall e :: e in es ==> cells[e.col].Some? && e == ToEvent(row, e.col, cells[e.col].value)
    ensures forall j :: 0 <= j < |cells| && cells[j].Some? ==> ToEvent(row, j, cells[j].value) in es
    ensures forall a, b :: 0 <= a < b < |es| ==> es[a].col < es[b].col
    decreases |cells|
  {
    if cells == [] then []
    else
      var j := |cells| - 1;
      var prev := RowEvents(row, cells[..j]);
      var last := if cells[j].Some? then [ToEvent(row, j, cells[j].value)] else [];
      var init := cells[..j];
      assert forall i :: 0 <= i < j ==> init[i] == cells[i];
      assert forall e :: e in prev ==> e.col < j && init[e.col] == cells[e.col];
      assert forall e :: e in last ==> e.col == j;
      prev + last
  }

  /** The events of a scan, row by row: exactly one per cell that
      reported, in row-major order. */
  function Events(grid: seq<seq<Option<bool>>>): (es: seq<Event>)
    requires |grid| <= U8_LIMIT && forall i :: 0 <= i < |grid| ==> |grid[i]| <= U8_LIMIT
    ensures forall e :: e in es ==>
      e.row < |grid| && e.col < |grid[e.row]| &&
      grid[e.row][e.col].Some? && e == ToEvent(e.row, e.col, grid[e.row][e.col].value)
    ensures forall i, j :: 0 <= i < |grid| && 0 <= j < |grid[i]| && grid[i][j].Some? ==>
        ToEvent(i, j, grid[i][j].value) in es
    ensures forall a, b :: 0 <= a < b < |es| ==> Before(es[a], es[b])
    decreases |grid|
  {
    if grid == [] then []
    else
      var i := |grid| - 1;
      var prev := Events(grid[..i]);
      var row := RowEvents(i, grid[i]);
      RowMajorConcat(prev, row, i);
      prev + row
  }

  /** Events of earlier rows, all sorted, followed by one sorted row's. */
  lemma RowMajorConcat(prev: seq<Event>, row: seq<Event>, i: nat)
    requires forall e :: e in prev ==> e.row < i
    requires forall e :: e in row ==> e.row == i
    requires forall a, b :: 0 <= a < b < |prev| ==> Before(prev[a], prev[b])
    requires forall a, b :: 0 <= a < b < |row| ==> row[a].col < row[b].col
    ensures forall a, b :: 0 <= a < b < |prev + row| ==> Before((prev + row)[a], (prev + row)[b])
  {
    var s := prev + row;
    forall a, b | 0 <= a < b < |s|
      ensures Before(s[a], s[b])
    {
      if b < |prev| {
        assert s[a] == prev[a] && s[b] == prev[b];
      } else if a >= |prev| {
        assert s[a] == row[a - |prev|] && s[b] == row[b - |prev|];
      } else {
        assert s[a] == prev[a] && s[b] == row[b - |prev|];
        assert prev[a] in prev && row[b - |prev|] in row;
      }
    }
  }

  predicate Shaped<T>(m: seq<seq<T>>)
  {
    |m| == ROWS && forall i :: 0 <= i < ROWS ==> |m[i]| == COLS
  }

  /** A cell's reading shows in the events as exactly the matching press
      or release. */
  lemma ReportedEvents(grid: seq<seq<Option<bool>>>, i: nat, j: nat)
    requires |grid| <= U8_LIMIT && forall r :: 0 <= r < |grid| ==> |grid[r]| <= U8_LIMIT
    requires i < |grid| && j < |grid[i]|
    ensures (grid[i][j] == Some(true) <==> Press(i, j) in Events(grid))
    ensures (grid[i][j] == Some(false) <==> Release(i, j) in Events(grid))
  {
    var es := Events(grid);
    if Press(i, j) in es {
      assert Press(i, j).row == i && Press(i, j).col == j;
    }
    if Release(i, j) in es {
      assert Release(i, j).row == i && Release(i, j).col == j;
    }
  }

  /** One scan: every debouncer takes its switch's sample, and the readings
      become events. */
  function ScanMatrix(ds: seq<seq<Debouncer>>, levels: seq<seq<bool>>): (r: (seq<seq<Debouncer>>, seq<Event>))
    requires Shaped(ds) && Shaped(levels)
    ensures Shaped(r.0)
    ensures forall i, j :: 0 <= i < ROWS && 0 <= j < COLS ==>
      r.0[i][j] == Update(ds[i][j], levels[i][j], DEBOUNCE_PERIOD).0
    ensures forall i, j :: 0 <= i < ROWS && 0 <= j < COLS ==>
      var rep := Update(ds[i][j], levels[i][j], DEBOUNCE_PERIOD).1;
      (rep == Some(true) <==> Press(i, j) in r.1) && (rep == Some(false) <==> Release(i, j) in r.1)
    ensures forall a, b :: 0 <= a < b < |r.1| ==> Before(r.1[a], r.1[b])
  {
    var ds' := seq(ROWS, i requires 0 <= i < ROWS =>
      seq(COLS, j requires 0 <= j < COLS => Update(ds[i][j], levels[i][j], DEBOUNCE_PERIOD).0));
    var reports := seq(ROWS, i requires 0 <= i < ROWS =>
      seq(COLS, j requires 0 <= j < COLS => Update(ds[i][j], levels[i][j], DEBOUNCE_PERIOD).1));
    var es := Events(reports);
    forall i, j | 0 <= i < ROWS && 0 <= j < COLS
      ensures var rep := reports[i][j];
        (rep == Some(true) <==> Press(i, j) in es) && (rep == Some(false) <==> Release(i, j) in es)
    {
      ReportedEvents(reports, i, j);
    }
    (ds', es)
  }
}
