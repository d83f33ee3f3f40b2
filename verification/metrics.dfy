/** Usage metrics (firmware/src/metrics.rs): a key-press counter and a
    trackpad distance, both `Wrapping<usize>` (32 bits on this target),
    updated by two tasks that publish every new value, and a syncer that
    persists the metrics every five minutes when they changed. The tasks
    are step functions; publishing is the returned list of updates and
    persisting is the returned value to store. */
module Metrics {

  import opened Util
  import opened KeyEvent
  import Keys

  datatype Metrics = Metrics(keysPressed: u32, trackpadDistance: u32)

  /** `Metrics::default()`. */
  const DEFAULT: Metrics := Metrics(0, 0)

  lemma DefaultIsZero()
    ensures DEFAULT.keysPressed == 0 && DEFAULT.trackpadDistance == 0
  {
  }

  /** `key_counter`: a press adds one, wrapping; a release is skipped. */
  function KeyCounter(m: Metrics, ev: Event): (r: (Metrics, seq<Metrics>))
    ensures ev.Release? ==> r == (m, [])
    ensures ev.Press? ==> r.1 == [r.0] && r.0.trackpadDistance == m.trackpadDistance
    ensures ev.Press? && m.keysPressed < U32_LIMIT - 1 ==> r.0.keysPressed == m.keysPressed + 1
    ensures ev.Press? && m.keysPressed == U32_LIMIT - 1 ==> r.0.keysPressed == 0
  {
    if ev.Release? then (m, [])
    else
      var m' := m.(keysPressed := WrapU32(m.keysPressed + 1));
      (m', [m'])
  }

  /** `report.x as u16`: an `i8` sign-extended to 16 bits. */
  function SignExtend(x: i8): (u: u16)
    ensures x >= 0 ==> u == x
    ensures x < 0 ==> u == x + U16_LIMIT
  {
    WrapU16(x)
  }

  /** `(x * x + y * y).sqrt()` on `u16`, every operation wrapping. The
      sign extension makes a negative delta's square overflow, but the
      wrap-around is modulo 2^16 and (x + 2^16)^2 = x^2 modulo 2^16: the
      wrapped square is the true square, and the sum of two squares of
      `i8` values fits. So the distance is the floor root of x^2 + y^2. */
  function MouseDistance(x: i8, y: i8): (d: nat)
    ensures d == FloorSqrt(x * x + y * y)
    ensures d <= 181
  {
    var ux := SignExtend(x);
    var uy := SignExtend(y);
    WrappedSumOfSquares(x, y);
    FloorSqrt(WrapU16(WrapU16(ux * ux) + WrapU16(uy * uy)))
  }

  lemma WrappedSumOfSquares(x: i8, y: i8)
    ensures WrapU16(WrapU16(SignExtend(x) * SignExtend(x)) + WrapU16(SignExtend(y) * SignExtend(y)))
      == x * x + y * y
    ensures FloorSqrt(x * x + y * y) <= 181
  {
    WrappedSquare(x);
    WrappedSquare(y);
    SquareAtMost(x);
    SquareAtMost(y);
    var n := x * x + y * y;
    assert n <= 32768;
    var r := FloorSqrt(n);
    if r > 181 {
      MulMono(182, r);
      assert false;
    }
  }

  lemma SquareAtMost(x: i8)
    ensures 0 <= x * x <= 16384
  {
    var a := Abs(x);
    assert a <= 128;
    MulMono(a, 128);
    assert x * x == a * a;
  }

  lemma WrappedSquare(x: i8)
    ensures WrapU16(SignExtend(x) * SignExtend(x)) == x * x
  {
    SquareAtMost(x);
    var u: int := SignExtend(x);
    if x < 0 {
      var k := 2 * x + U16_LIMIT;
      assert u * u == x * x + k * U16_LIMIT;
      DivUnique(u * u, U16_LIMIT, k, x * x);
    }
  }

  /** `mouse_counter`: a forwarded mouse report adds its distance,
      wrapping, and publishes; every other message is skipped. */
  function MouseCounter(m: Metrics, msg: Keys.DeviceToDevice): (r: (Metrics, seq<Metrics>))
    ensures !msg.ForwardedToHostMouse? ==> r == (m, [])
    ensures msg.ForwardedToHostMouse? ==>
      r.1 == [r.0] && r.0.keysPressed == m.keysPressed
      && r.0.trackpadDistance
         == WrapU32(m.trackpadDistance + FloorSqrt(msg.report.x * msg.report.x + msg.report.y * msg.report.y))
  {
    if !msg.ForwardedToHostMouse? then (m, [])
    else
      var d := MouseDistance(msg.report.x, msg.report.y);
      var m' := m.(trackpadDistance := WrapU32(m.trackpadDistance + d));
      (m', [m'])
  }

  /** One period of `metrics_syncer`: persist the current metrics only
      when they differ from the last ones seen, and remember them. */
  function SyncStep(last: Metrics, current: Metrics): (r: (Option<Metrics>, Metrics))
    ensures r.0.Some? <==> current != last
    ensures r.0.Some? ==> r.0.value == current
    ensures r.1 == current
  {
    (if current != last then Some(current) else None, current)
  }

  /** The syncer over the metrics read at successive periods: the final
      `last`, and what the flash holds (initially `flash`). `ok[i]` is
      whether the flash write of period `i` would succeed; the source
      discards that outcome and moves `last` on either way. */
  function Sync(flash: Option<Metrics>, last: Metrics, samples: seq<Metrics>, ok: seq<bool>): (r: (Option<Metrics>, Metrics))
    requires |ok| == |samples|
    ensures samples != [] ==> r.1 == samples[|samples| - 1]
    ensures samples == [] ==> r == (flash, last)
    decreases |samples|
  {
    if samples == [] then (flash, last)
    else
      var (stored, last') := SyncStep(last, samples[0]);
      var flash' := if stored.Some? && ok[0] then stored else flash;
      Sync(flash', last', samples[1..], ok[1..])
  }

  /** The metrics seen just before period `i`. */
  function Before(last: Metrics, samples: seq<Metrics>, i: nat): Metrics
    requires i < |samples|
  {
    if i == 0 then last else samples[i - 1]
  }

  /** Period `j` changed the metrics, its write failed, and no later period
      changed them again. */
  predicate LostWrite(last: Metrics, samples: seq<Metrics>, ok: seq<bool>, j: nat)
    requires |ok| == |samples|
  {
    j < |samples| && samples[j] != Before(last, samples, j) && !ok[j]
    && forall k :: j < k < |samples| ==> samples[k] == samples[j]
  }

  /** The flash ends up holding the latest metrics; or nothing ever changed
      and nothing was written; or the last change's write failed and was
      never retried. */
  lemma {:induction false} SyncKeepsFlashCurrent(flash: Option<Metrics>, last: Metrics, samples: seq<Metrics>, ok: seq<bool>)
    requires |ok| == |samples|
    ensures var (flash', last') := Sync(flash, last, samples, ok);
      flash' == Some(last')
      || (flash' == flash && last' == last && forall i :: 0 <= i < |samples| ==> samples[i] == last)
      || exists j: nat :: LostWrite(last, samples, ok, j)
    decreases |samples|
  {
    if samples != [] {
      var (stored, next) := SyncStep(last, samples[0]);
      var flash1 := if stored.Some? && ok[0] then stored else flash;
      var rest, restOk := samples[1..], ok[1..];
      SyncKeepsFlashCurrent(flash1, next, rest, restOk);
      assert forall i :: 1 <= i < |samples| ==> samples[i] == rest[i - 1];
      var (flash', last') := Sync(flash, last, samples, ok);
      assert (flash', last') == Sync(flash1, next, rest, restOk);
      if flash' != Some(last') {
        if exists j: nat :: LostWrite(next, rest, restOk, j) {
          var j: nat :| LostWrite(next, rest, restOk, j);
          assert Before(last, samples, j + 1) == Before(next, rest, j);
          assert LostWrite(last, samples, ok, j + 1);
        } else if samples[0] != last {
          assert LostWrite(last, samples, ok, 0);
        }
      }
    }
  }

  /** As written, a failed write is never retried while the metrics stay
      the same: whatever later writes would do, the flash keeps its old
      contents. */
  lemma {:induction false} FailedWriteNotRetried(flash: Option<Metrics>, last: Metrics, samples: seq<Metrics>, ok: seq<bool>)
    requires |ok| == |samples| && LostWrite(last, samples, ok, 0)
    ensures Sync(flash, last, samples, ok).0 == flash
    decreases |samples|
  {
    var rest, restOk := samples[1..], ok[1..];
    assert forall k :: 0 <= k < |rest| ==> rest[k] == samples[k + 1];
    UnchangedWritesNothing(flash, samples[0], rest, restOk);
  }

  /** Periods that all see `last` again write nothing. */
  lemma {:induction false} UnchangedWritesNothing(flash: Option<Metrics>, last: Metrics, samples: seq<Metrics>, ok: seq<bool>)
    requires |ok| == |samples|
    requires forall k :: 0 <= k < |samples| ==> samples[k] == last
    ensures Sync(flash, last, samples, ok) == (flash, last)
    decreases |samples|
  {
    if samples != [] {
      var rest, restOk := samples[1..], ok[1..];
      assert forall k :: 0 <= k < |rest| ==> rest[k] == samples[k + 1];
      UnchangedWritesNothing(flash, last, rest, restOk);
    }
  }

  /** The update lost as written: the metrics change once, the first write
      fails, the next period's write would succeed, and the flash is never
      updated. Retrying stores the metrics in the second period. */
  lemma LostUpdate(m: Metrics)
    requires m != DEFAULT
    ensures Sync(None, DEFAULT, [m, m], [false, true]) == (None, m)
    ensures SyncRetrying(None, DEFAULT, [m, m], [false, true]) == (Some(m), m)
  {
    FailedWriteNotRetried(None, DEFAULT, [m, m], [false, true]);
    assert [m, m][1..] == [m] && [false, true][1..] == [true];
    assert SyncRetrying(None, DEFAULT, [m], [true]) == (Some(m), m);
  }

  /** The syncer with each write's outcome checked: `last`
      moves on only once the metrics are stored, so a failed write is
      tried again next period. */
  function SyncRetrying(flash: Option<Metrics>, last: Metrics, samples: seq<Metrics>, ok: seq<bool>): (r: (Option<Metrics>, Metrics))
    requires |ok| == |samples|
    ensures r.0 == Some(r.1) || r == (flash, last)
    decreases |samples|
  {
    if samples == [] then (flash, last)
    else
      var current := samples[0];
      if current != last && ok[0] then SyncRetrying(Some(current), current, samples[1..], ok[1..])
      else SyncRetrying(flash, last, samples[1..], ok[1..])
  }

  /** With retrying, whenever the final period's write would succeed, the
      flash holds the latest metrics, unless they equal the initial `last`
      and nothing was ever written. */
  lemma {:induction false} SyncRetryingCatchesUp(flash: Option<Metrics>, last: Metrics, samples: seq<Metrics>, ok: seq<bool>)
    requires |ok| == |samples| && samples != [] && ok[|ok| - 1]
    ensures var (flash', _) := SyncRetrying(flash, last, samples, ok);
      flash' == Some(samples[|samples| - 1])
      || (flash' == flash && samples[|samples| - 1] == last)
    decreases |samples|
  {
    var rest, restOk := samples[1..], ok[1..];
    var current := samples[0];
    if rest == [] {
    } else {
      assert rest[|rest| - 1] == samples[|samples| - 1];
      assert restOk[|restOk| - 1] == ok[|ok| - 1];
      if current != last && ok[0] {
        SyncRetryingCatchesUp(Some(current), current, rest, restOk);
      } else {
        SyncRetryingCatchesUp(flash, last, rest, restOk);
      }
    }
  }
}
