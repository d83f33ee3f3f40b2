/** The LED runner's arithmetic (firmware/src/rgb/runner.rs): the
    ease-in-out weight of a cross-fade between two animations, the hand-over
    of the pending animation once its fade is over, and the gamma
    correction with error diffusion that turns 8-bit colours into LED
    levels.

    Durations are counted in the timer's ticks; the RP2040 time driver of
    embassy runs at 1 MHz. Fixed-point values are their raw bits, as in
    `MathUtils`. */
module Runner {

  import opened Util
  import opened MathUtils

  const TICK_HZ: nat := 1_000_000
  /** `FADE_DURATION`, three seconds. */
  const FADE_TICKS: nat := 3 * TICK_HZ

  /** The fraction of the fade elapsed, as a `U0F16`: the `U32F32`
      quotient of the tick counts (truncated), narrowed to 16 fractional
      bits (truncated, saturating just below 1). */
  function FadeFraction(elapsed: nat): (p: nat)
    requires elapsed <= FADE_TICKS
    ensures p < ONE
    ensures elapsed < FADE_TICKS ==> p * FADE_TICKS <= elapsed * ONE
  {
    var n := WrapU32(elapsed);
    var d := WrapU32(FADE_TICKS);
    var quotient := (n * U32_LIMIT) / d;
    FractionBelow(elapsed, quotient);
    Min(quotient / ONE, ONE - 1)
  }

  lemma FractionBelow(elapsed: nat, quotient: nat)
    requires elapsed <= FADE_TICKS && quotient == (elapsed * U32_LIMIT) / FADE_TICKS
    ensures (quotient / ONE) * FADE_TICKS <= elapsed * ONE
  {
    var p := quotient / ONE;
    assert p * ONE <= quotient;
    assert quotient * FADE_TICKS <= elapsed * U32_LIMIT;
    assert (p * ONE) * FADE_TICKS <= quotient * FADE_TICKS;
    assert (p * FADE_TICKS) * ONE <= (elapsed * ONE) * ONE;
  }

  /** `ease_fade_on_time`: the weight of the next animation in the blend.
      Past the fade it is 255; otherwise it is `ease_fade` of the elapsed
      fraction. */
  function EaseFadeOnTime(elapsed: nat): (level: u8)
    ensures elapsed > FADE_TICKS ==> level == 255
    ensures elapsed <= FADE_TICKS ==> level == EaseFade(FadeFraction(elapsed))
  {
    if elapsed > FADE_TICKS then 255 else EaseFade(FadeFraction(elapsed))
  }

  /** The blend starts with the current animation alone and, at the end of
      the fade (the `U0F16` fraction saturating), shows the next one alone. */
  lemma FadeEnds()
    ensures EaseFadeOnTime(0) == 0
    ensures EaseFadeOnTime(FADE_TICKS) == 255
  {
    EaseFadeEnds();
  }

  /** The weight of the next animation never decreases as time passes. */
  lemma FadeMonotone(e1: nat, e2: nat)
    requires e1 <= e2
    ensures EaseFadeOnTime(e1) <= EaseFadeOnTime(e2)
  {
    if e2 <= FADE_TICKS {
      MulLeq(e1, e2, U32_LIMIT);
      DivMono(e1 * U32_LIMIT, e2 * U32_LIMIT, FADE_TICKS);
      DivMono((e1 * U32_LIMIT) / FADE_TICKS, (e2 * U32_LIMIT) / FADE_TICKS, ONE);
      EaseFadeMonotone(FadeFraction(e1), FadeFraction(e2));
    }
  }


  /** The start of the loop: a pending animation whose fade began more
      than `FADE_DURATION` ago becomes the current one. `next` holds the
      instant its fade began. */
  function HandOver<A>(current: A, next: Option<(nat, A)>, now: nat): (r: (A, Option<(nat, A)>))
    requires next.Some? ==> next.value.0 <= now
    ensures r.1.Some? ==> r == (current, next)
    ensures next.None? ==> r.1.None? && r.0 == current
    ensures next.Some? ==> (r.1.None? <==> now - next.value.0 > FADE_TICKS)
    ensures next.Some? && r.1.None? ==> r.0 == next.value.1
  {
    if next.Some? && now - next.value.0 > FADE_TICKS then (next.value.1, None) else (current, next)
  }

  /** The hand-over is invisible: when it happens, the blend already showed
      the next animation alone; while it is pending, it did not. */
  lemma HandOverAtFullBlend<A>(current: A, next: Option<(nat, A)>, now: nat)
    requires next.Some? && next.value.0 <= now
    ensures HandOver(current, next, now).1.None? ==> EaseFadeOnTime(now - next.value.0) == 255
    ensures HandOver(current, next, now).1.Some? ==> now - next.value.0 <= FADE_TICKS
  {
  }

  /** The gamma table: 255 * (n / 255)^1.9 rounded to three significant
      digits, in `U16F16` bits, in rows of 16. */
  const GAMMA_0: seq<nat> := [0, 448, 1671, 3604, 6232, 9503, 13435, 18022, 23265, 29098, 35521, 42598, 50266, 58458, 67502, 76677]
  const GAMMA_1: seq<nat> := [86508, 97649, 108790, 120586, 132383, 145490, 159252, 173015, 187433, 202506, 218235, 234619, 251003, 268698, 286392, 304742]
  const GAMMA_2: seq<nat> := [323748, 343409, 363725, 384041, 405012, 426639, 448922, 471859, 494797, 518390, 542638, 567542, 593101, 619315, 645530, 675021]
  const GAMMA_3: seq<nat> := [701235, 727450, 753664, 786432, 812646, 845414, 878182, 904397, 937165, 969933, 1002701, 1035469, 1068237, 1101005, 1140326, 1173094]
  const GAMMA_4: seq<nat> := [1205862, 1245184, 1284506, 1317274, 1356595, 1395917, 1435238, 1474560, 1513882, 1553203, 1592525, 1631846, 1677722, 1717043, 1762918, 1802240]
  const GAMMA_5: seq<nat> := [1848115, 1893990, 1933312, 1979187, 2025062, 2070938, 2116813, 2169242, 2215117, 2260992, 2313421, 2359296, 2411725, 2457600, 2510029, 2562458]
  const GAMMA_6: seq<nat> := [2614886, 2660762, 2713190, 2765619, 2824602, 2877030, 2929459, 2988442, 3040870, 3093299, 3152282, 3211264, 3263693, 3322675, 3381658, 3440640]
  const GAMMA_7: seq<nat> := [3499622, 3558605, 3617587, 3683123, 3742106, 3801088, 3866624, 3925606, 3991142, 4056678, 4115661, 4181197, 4246733, 4312269, 4377805, 4443341]
  const GAMMA_8: seq<nat> := [4508877, 4580966, 4646502, 4712038, 4784128, 4849664, 4921754, 4993843, 5059379, 5131469, 5203558, 5275648, 5347738, 5419827, 5491917, 5570560]
  const GAMMA_9: seq<nat> := [5642650, 5714739, 5793382, 5865472, 5944115, 6022758, 6094848, 6173491, 6252134, 6330778, 6409421, 6488064, 6553600, 6619136, 6750208, 6815744]
  const GAMMA_10: seq<nat> := [6881280, 6946816, 7077888, 7143424, 7208960, 7340032, 7405568, 7471104, 7536640, 7667712, 7733248, 7798784, 7929856, 7995392, 8060928, 8192000]
  const GAMMA_11: seq<nat> := [8257536, 8323072, 8454144, 8519680, 8650752, 8716288, 8781824, 8912896, 8978432, 9109504, 9175040, 9240576, 9371648, 9437184, 9568256, 9633792]
  const GAMMA_12: seq<nat> := [9764864, 9830400, 9961472, 10027008, 10158080, 10223616, 10354688, 10420224, 10551296, 10616832, 10747904, 10813440, 10944512, 11010048, 11141120, 11272192]
  const GAMMA_13: seq<nat> := [11337728, 11468800, 11534336, 11665408, 11796480, 11862016, 11993088, 12058624, 12189696, 12320768, 12386304, 12517376, 12648448, 12713984, 12845056, 12976128]
  const GAMMA_14: seq<nat> := [13041664, 13172736, 13303808, 13369344, 13500416, 13631488, 13762560, 13828096, 13959168, 14090240, 14221312, 14286848, 14417920, 14548992, 14680064, 14745600]
  const GAMMA_15: seq<nat> := [14876672, 15007744, 15138816, 15269888, 15400960, 15466496, 15597568, 15728640, 15859712, 15990784, 16121856, 16187392, 16318464, 16449536, 16580608, 16711680]

  const GAMMA_ROWS: seq<seq<nat>> := [
    GAMMA_0, GAMMA_1, GAMMA_2, GAMMA_3, GAMMA_4, GAMMA_5, GAMMA_6, GAMMA_7, GAMMA_8, GAMMA_9, GAMMA_10, GAMMA_11, GAMMA_12, GAMMA_13, GAMMA_14, GAMMA_15
  ]

  function Gamma(c: u8): nat
  {
    RowIncreasing(c / 16);
    GAMMA_ROWS[c / 16][c % 16]
  }

  /** The sixteen steps of a row, spelled out. */
  predicate Steps16(row: seq<nat>)
  {
    |row| == 16 && row[0] < row[1] && row[1] < row[2] && row[2] < row[3] && row[3] < row[4] && row[4] < row[5] && row[5] < row[6] && row[6] < row[7] && row[7] < row[8] && row[8] < row[9] && row[9] < row[10] && row[10] < row[11] && row[11] < row[12] && row[12] < row[13] && row[13] < row[14] && row[14] < row[15]
  }

  predicate Increasing(row: seq<nat>)
  {
    forall i :: 0 <= i < |row| - 1 ==> row[i] < row[i + 1]
  }

  lemma Steps16Increasing(row: seq<nat>)
    requires Steps16(row)
    ensures Increasing(row)
  {
    forall i | 0 <= i < |row| - 1
      ensures row[i] < row[i + 1]
    {
      assert i == 0 || i == 1 || i == 2 || i == 3 || i == 4 || i == 5 || i == 6 || i == 7 || i == 8 || i == 9 || i == 10 || i == 11 || i == 12 || i == 13 || i == 14;
    }
  }

  /** Sixteen rows of sixteen, each increasing. */
  lemma RowIncreasing(k: nat)
    requires k < 16
    ensures |GAMMA_ROWS| == 16
    ensures Steps16(GAMMA_ROWS[k])
  {
    LowRowsIncrease();
    HighRowsIncrease();
    match k
      case 0 => assert GAMMA_ROWS[0] == GAMMA_0;
      case 1 => assert GAMMA_ROWS[1] == GAMMA_1;
      case 2 => assert GAMMA_ROWS[2] == GAMMA_2;
      case 3 => assert GAMMA_ROWS[3] == GAMMA_3;
      case 4 => assert GAMMA_ROWS[4] == GAMMA_4;
      case 5 => assert GAMMA_ROWS[5] == GAMMA_5;
      case 6 => assert GAMMA_ROWS[6] == GAMMA_6;
      case 7 => assert GAMMA_ROWS[7] == GAMMA_7;
      case 8 => assert GAMMA_ROWS[8] == GAMMA_8;
      case 9 => assert GAMMA_ROWS[9] == GAMMA_9;
      case 10 => assert GAMMA_ROWS[10] == GAMMA_10;
      case 11 => assert GAMMA_ROWS[11] == GAMMA_11;
      case 12 => assert GAMMA_ROWS[12] == GAMMA_12;
      case 13 => assert GAMMA_ROWS[13] == GAMMA_13;
      case 14 => assert GAMMA_ROWS[14] == GAMMA_14;
      case 15 => assert GAMMA_ROWS[15] == GAMMA_15;
  }

  lemma LowRowsIncrease()
    ensures Steps16(GAMMA_0) && Steps16(GAMMA_1) && Steps16(GAMMA_2) && Steps16(GAMMA_3)
    ensures Steps16(GAMMA_4) && Steps16(GAMMA_5) && Steps16(GAMMA_6) && Steps16(GAMMA_7)
  {
  }

  lemma HighRowsIncrease()
    ensures Steps16(GAMMA_8) && Steps16(GAMMA_9) && Steps16(GAMMA_10) && Steps16(GAMMA_11)
    ensures Steps16(GAMMA_12) && Steps16(GAMMA_13) && Steps16(GAMMA_14) && Steps16(GAMMA_15)
  {
  }

  /** Each row starts above the end of the one before. */
  lemma RowsChained()
    ensures |GAMMA_ROWS| == 16
    ensures forall k :: 0 <= k < 15 ==> GAMMA_ROWS[k][15] < GAMMA_ROWS[k + 1][0]
  {
  }

  lemma GammaStep(c: u8)
    requires c < 255
    ensures Gamma(c) < Gamma(c + 1)
  {
    RowIncreasing(c / 16);
    RowsChained();
    Steps16Increasing(GAMMA_ROWS[c / 16]);
    if c % 16 == 15 {
      assert (c + 1) / 16 == c / 16 + 1 && (c + 1) % 16 == 0;
    } else {
      assert (c + 1) / 16 == c / 16 && (c + 1) % 16 == c % 16 + 1;
    }
  }

  /** The table is strictly increasing. */
  lemma {:induction false} GammaIncreasing(a: u8, b: u8)
    requires a < b
    ensures Gamma(a) < Gamma(b)
    decreases b - a
  {
    GammaStep(b - 1);
    if a < b - 1 {
      GammaIncreasing(a, b - 1);
    }
  }

  /** It maps black to 0 and full level to exactly 255, so no entry exceeds
      255 and a corrected level never saturates. */
  lemma GammaEnds(c: u8)
    ensures Gamma(0) == 0 && Gamma(255) == 255 * ONE
    ensures Gamma(c) <= 255 * ONE
  {
    if c < 255 {
      GammaIncreasing(c, 255);
    }
  }

  /** The rounding residual of each colour channel, in `U16F16` bits. */
  datatype Tracker = Tracker(r: u32, g: u32, b: u32)

  predicate TrackerWf(t: Tracker)
  {
    t.r < ONE && t.g < ONE && t.b < ONE
  }

  /** A fresh tracker, as every pass of the outer loop creates. */
  function DefaultTracker(): (t: Tracker)
    ensures TrackerWf(t) && t.r == 0 && t.g == 0 && t.b == 0
  {
    Tracker(0, 0, 0)
  }

  /** One channel of `GammaErrorTracker::process`: the corrected level plus
      the carried residual; the integer part goes out (saturating into a
      `u8`) and the fraction is carried to the next frame. */
  function ProcessChannel(residual: u32, c: u8): (r: (u8, u32))
    ensures r.1 < ONE
    ensures residual < ONE ==> r.0 * ONE + r.1 == Gamma(c) + residual
  {
    GammaEnds(c);
    var sum := WrapU32(Gamma(c) + residual);
    (Min(sum / ONE, 255), sum % ONE)
  }

  /** `GammaErrorTracker::process` on a colour. */
  function Process(t: Tracker, c: Rgb): (r: (Tracker, Rgb))
    ensures TrackerWf(r.0)
    ensures TrackerWf(t) ==>
      r.1.r * ONE + r.0.r == Gamma(c.r) + t.r
      && r.1.g * ONE + r.0.g == Gamma(c.g) + t.g
      && r.1.b * ONE + r.0.b == Gamma(c.b) + t.b
  {
    var (r, rr) := ProcessChannel(t.r, c.r);
    var (g, rg) := ProcessChannel(t.g, c.g);
    var (b, rb) := ProcessChannel(t.b, c.b);
    (Tracker(rr, rg, rb), Rgb(r, g, b))
  }

  /** One channel over successive frames of the inner loop. */
  function Diffuse(residual: u32, levels: seq<u8>): (r: (seq<u8>, u32))
    ensures |r.0| == |levels|
    ensures levels != [] || residual < ONE ==> r.1 < ONE
    decreases |levels|
  {
    if levels == [] then ([], residual)
    else
      var (out, carried) := ProcessChannel(residual, levels[0]);
      var rest := Diffuse(carried, levels[1..]);
      ([out] + rest.0, rest.1)
  }

  function Sum(s: seq<u8>): nat
  {
    if s == [] then 0 else s[0] + Sum(s[1..])
  }

  function GammaSum(levels: seq<u8>): nat
  {
    if levels == [] then 0 else Gamma(levels[0]) + GammaSum(levels[1..])
  }

  /** No brightness is lost: over any run of frames the levels sent plus
      the residual left equal the corrected levels asked for plus the
      residual at the start, so the light sent trails the light asked for
      by less than one level. */
  lemma {:induction false} DiffuseConserves(residual: u32, levels: seq<u8>)
    requires residual < ONE
    ensures var r := Diffuse(residual, levels);
      Sum(r.0) * ONE + r.1 == GammaSum(levels) + residual
      && GammaSum(levels) + residual - ONE < Sum(r.0) * ONE <= GammaSum(levels) + residual
    decreases |levels|
  {
    if levels != [] {
      var (out, carried) := ProcessChannel(residual, levels[0]);
      var rest := Diffuse(carried, levels[1..]);
      DiffuseConserves(carried, levels[1..]);
      var all := [out] + rest.0;
      assert all[0] == out && all[1..] == rest.0;
      assert Sum(all) == out + Sum(rest.0);
      assert Sum(all) * ONE == out * ONE + Sum(rest.0) * ONE;
    }
  }
}
