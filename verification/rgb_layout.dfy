/** The LED layout of each half (firmware/src/rgb/layout.rs): 18 underglow
    LEDs followed by 18 per-switch LEDs, each with a location in
    millimetres relative to the bottom-left light of the left board, a
    matrix position for switch LEDs, and its index in the chain.

    Both halves are built from the same relative coordinates: the left
    half mirrors them about x = 90 and numbers matrix columns from the
    right (4 - mx); the right half shifts them by 180 mm and its columns
    by 5. The tables are evaluated at compile time, so an `i16` or `u8`
    overflow in a coordinate would be a build error: the constructors
    require that it does not happen. */
module RgbLayout {

  import opened Util

  const NUM_LEDS: nat := 18 + 18
  const UNDERGLOW_COUNT: nat := 18

  const TOP_RIGHT_LED_OFFSET: int := 90
  const RIGHT_LED_OFFSET: int := 180
  const RIGHT_MATRIX_OFFSET: int := 5

  datatype Kind = Switch | Underglow

  datatype Light = Light(location: (i16, i16), position: Option<(u8, u8)>, kind: Kind, index: u16)

  datatype UnindexedLight = UnindexedLight(location: (i16, i16), position: Option<(u8, u8)>, kind: Kind)

  function Under(location: (i16, i16)): (l: UnindexedLight)
    ensures l.location == location && l.position.None? && l.kind == Underglow
  {
    UnindexedLight(location, None, Underglow)
  }

  function SwitchLight(location: (i16, i16), position: (u8, u8)): (l: UnindexedLight)
    ensures l.location == location && l.position == Some(position) && l.kind == Switch
  {
    UnindexedLight(location, Some(position), Switch)
  }

  /** `index_lights`: every light keeps its fields and gets its own index
      (`i as u16`, which keeps `i` for any table shorter than 65536). */
  function IndexLights(lights: seq<UnindexedLight>): (r: seq<Light>)
    ensures |r| == |lights|
    ensures forall i :: 0 <= i < |r| ==>
      r[i].location == lights[i].location && r[i].position == lights[i].position
      && r[i].kind == lights[i].kind && r[i].index == WrapU16(i)
    ensures |lights| <= U16_LIMIT ==> forall i :: 0 <= i < |r| ==> r[i].index == i
  {
    seq(|lights|, i requires 0 <= i < |lights| =>
      Light(lights[i].location, lights[i].position, lights[i].kind, WrapU16(i)))
  }

  /** A relative underglow location (x, y). */
  type Rel = (int, int)

  /** A relative switch entry (x, y, mx, my). */
  type RelSwitch = (int, int, int, int)

  /** The underglow locations both halves list, in chain order. */
  const UNDERGLOW: seq<Rel> := [
    (0, 70), (25, 75), (60, 80), (70, 60), (85, 45), (85, 20),
    (85, 0), (70, 15), (60, 15), (40, -5), (25, -5), (10, -10),
    (-10, -20), (-20, 10), (-25, 20), (-40, 20), (-40, 40), (-40, 60)
  ]

  /** The switch entries of rows 0 to 2, which both halves share. */
  const MAIN_SWITCHES: seq<RelSwitch> := [
    (0, 55, 0, 0), (20, 59, 1, 0), (40, 63, 2, 0), (60, 59, 3, 0), (80, 45, 4, 0),
    (80, 45 - 20, 4, 1), (60, 59 - 20, 3, 1), (40, 63 - 20, 2, 1), (20, 59 - 20, 1, 1), (0, 55 - 20, 0, 1),
    (0, 55 - 40, 0, 2), (20, 59 - 40, 1, 2), (40, 63 - 40, 2, 2), (60, 59 - 40, 3, 2), (80, 45 - 40, 4, 2)
  ]

  /** The thumb rows differ in their matrix columns. */
  const LEFT_THUMBS: seq<RelSwitch> := [(-10, 0, 4, 3), (10, -5, 3, 3), (-10, -15, 2, 3)]
  const RIGHT_THUMBS: seq<RelSwitch> := [(-10, 0, 2, 3), (10, -5, 1, 3), (-10, -15, 0, 3)]

  predicate FitsI16(v: int) { I16_MIN <= v <= I16_MAX }

  /** The left half's `u`. */
  function LeftU(x: int, y: int): (l: UnindexedLight)
    requires FitsI16(TOP_RIGHT_LED_OFFSET - x) && FitsI16(y)
    ensures l.kind == Underglow && l.location == (TOP_RIGHT_LED_OFFSET - x, y)
  {
    Under((TOP_RIGHT_LED_OFFSET - x, y))
  }

  /** The left half's `s`: mirrored location, columns counted from the right. */
  function LeftS(x: int, y: int, mx: int, my: int): (l: UnindexedLight)
    requires FitsI16(TOP_RIGHT_LED_OFFSET - x) && FitsI16(y)
    requires 0 <= mx <= 4 && 0 <= my < U8_LIMIT
    ensures l.kind == Switch && l.location == (TOP_RIGHT_LED_OFFSET - x, y)
    ensures l.position == Some((4 - mx, my))
  {
    SwitchLight((TOP_RIGHT_LED_OFFSET - x, y), (4 - mx, my))
  }

  /** The right half's `u`. */
  function RightU(x: int, y: int): (l: UnindexedLight)
    requires FitsI16(x + RIGHT_LED_OFFSET) && FitsI16(y)
    ensures l.kind == Underglow && l.location == (x + RIGHT_LED_OFFSET, y)
  {
    Under((x + RIGHT_LED_OFFSET, y))
  }

  /** The right half's `s`: shifted location and columns. */
  function RightS(x: int, y: int, mx: int, my: int): (l: UnindexedLight)
    requires FitsI16(x + RIGHT_LED_OFFSET) && FitsI16(y)
    requires 0 <= mx && mx + RIGHT_MATRIX_OFFSET < U8_LIMIT && 0 <= my < U8_LIMIT
    ensures l.kind == Switch && l.location == (x + RIGHT_LED_OFFSET, y)
    ensures l.position == Some((mx + RIGHT_MATRIX_OFFSET, my))
  {
    SwitchLight((x + RIGHT_LED_OFFSET, y), (mx + RIGHT_MATRIX_OFFSET, my))
  }

  predicate SmallRel(r: Rel) { -100 <= r.0 <= 100 && -100 <= r.1 <= 100 }

  predicate SmallSwitch(r: RelSwitch, maxMx: int)
  {
    -100 <= r.0 <= 100 && -100 <= r.1 <= 100 && 0 <= r.2 <= maxMx && 0 <= r.3 < U8_LIMIT
  }

  function LeftUnindexed(): (ls: seq<UnindexedLight>)
    ensures |ls| == NUM_LEDS
  {
    var switches := MAIN_SWITCHES + LEFT_THUMBS;
    assert forall i :: 0 <= i < |UNDERGLOW| ==> SmallRel(UNDERGLOW[i]);
    assert forall i :: 0 <= i < |switches| ==> SmallSwitch(switches[i], 4);
    seq(|UNDERGLOW|, i requires 0 <= i < |UNDERGLOW| => LeftU(UNDERGLOW[i].0, UNDERGLOW[i].1))
    + seq(|switches|, i requires 0 <= i < |switches| =>
        LeftS(switches[i].0, switches[i].1, switches[i].2, switches[i].3))
  }

  function RightUnindexed(): (ls: seq<UnindexedLight>)
    ensures |ls| == NUM_LEDS
  {
    var switches := MAIN_SWITCHES + RIGHT_THUMBS;
    assert forall i :: 0 <= i < |UNDERGLOW| ==> SmallRel(UNDERGLOW[i]);
    assert forall i :: 0 <= i < |switches| ==> SmallSwitch(switches[i], 4);
    seq(|UNDERGLOW|, i requires 0 <= i < |UNDERGLOW| => RightU(UNDERGLOW[i].0, UNDERGLOW[i].1))
    + seq(|switches|, i requires 0 <= i < |switches| =>
        RightS(switches[i].0, switches[i].1, switches[i].2, switches[i].3))
  }

  function Left(): seq<Light> { IndexLights(LeftUnindexed()) }

  function Right(): seq<Light> { IndexLights(RightUnindexed()) }

  /** Both tables hold `NUM_LEDS` lights, indexed in chain order: 18
      underglow lights without a matrix position, then 18 switch lights
      with one. */
  lemma TablesShape()
    ensures |Left()| == NUM_LEDS && |Right()| == NUM_LEDS
    ensures forall i :: 0 <= i < NUM_LEDS ==> Left()[i].index == i && Right()[i].index == i
    ensures forall i :: 0 <= i < UNDERGLOW_COUNT ==>
      Left()[i].kind == Underglow && Left()[i].position.None?
      && Right()[i].kind == Underglow && Right()[i].position.None?
    ensures forall i :: UNDERGLOW_COUNT <= i < NUM_LEDS ==>
      Left()[i].kind == Switch && Left()[i].position.Some?
      && Right()[i].kind == Switch && Right()[i].position.Some?
  {
    var l, r := LeftUnindexed(), RightUnindexed();
    assert forall i :: 0 <= i < UNDERGLOW_COUNT ==> l[i].kind == Underglow && r[i].kind == Underglow;
    assert forall i :: UNDERGLOW_COUNT <= i < NUM_LEDS ==> l[i].kind == Switch && r[i].kind == Switch;
  }

  /** The halves are mirror images: light i of the left half sits at
      90 - x where light i of the right half sits at x + 180, at the same
      height. */
  lemma HalvesMirror()
    ensures |Left()| == |Right()| == NUM_LEDS
    ensures forall i :: 0 <= i < NUM_LEDS ==>
      Left()[i].location.0 == TOP_RIGHT_LED_OFFSET - (Right()[i].location.0 - RIGHT_LED_OFFSET)
      && Left()[i].location.1 == Right()[i].location.1
  {
    var l, r := LeftUnindexed(), RightUnindexed();
    assert forall i :: 0 <= i < NUM_LEDS ==>
      l[i].location.0 == TOP_RIGHT_LED_OFFSET - (r[i].location.0 - RIGHT_LED_OFFSET)
      && l[i].location.1 == r[i].location.1;
  }

  /** Left switch lights occupy matrix columns 0 to 4, right ones 5 to 9,
      rows 0 to 3; in rows 0 to 2 the left column is 9 minus the right one. */
  lemma SwitchColumns()
    ensures |Left()| == |Right()| == NUM_LEDS
    ensures forall i :: UNDERGLOW_COUNT <= i < NUM_LEDS && Left()[i].position.Some? ==>
      Left()[i].position.value.0 <= 4 && Left()[i].position.value.1 <= 3
    ensures forall i :: UNDERGLOW_COUNT <= i < NUM_LEDS && Right()[i].position.Some? ==>
      5 <= Right()[i].position.value.0 <= 9 && Right()[i].position.value.1 <= 3
    ensures forall i :: UNDERGLOW_COUNT <= i < UNDERGLOW_COUNT + |MAIN_SWITCHES| ==>
      Left()[i].position.Some? && Right()[i].position.Some?
      && Left()[i].position.value.0 + Right()[i].position.value.0 == 9
  {
    var l, r := LeftUnindexed(), RightUnindexed();
    assert forall i :: UNDERGLOW_COUNT <= i < NUM_LEDS ==>
      l[i].position.Some? && l[i].position.value.0 <= 4 && l[i].position.value.1 <= 3;
    assert forall i :: UNDERGLOW_COUNT <= i < NUM_LEDS ==>
      r[i].position.Some? && 5 <= r[i].position.value.0 <= 9 && r[i].position.value.1 <= 3;
  }

  /** No two switch lights of one half share a matrix position: each
      position names its slot in the table back. */
  lemma PositionsDistinct()
    ensures |Left()| == |Right()| == NUM_LEDS
    ensures forall i, j :: UNDERGLOW_COUNT <= i < j < NUM_LEDS ==> Left()[i].position != Left()[j].position
    ensures forall i, j :: UNDERGLOW_COUNT <= i < j < NUM_LEDS ==> Right()[i].position != Right()[j].position
  {
    var l, r := LeftUnindexed(), RightUnindexed();
    assert forall i :: UNDERGLOW_COUNT <= i < NUM_LEDS ==>
      l[i].position.Some? && LeftSlot(l[i].position.value) == i - UNDERGLOW_COUNT;
    assert forall i :: UNDERGLOW_COUNT <= i < NUM_LEDS ==>
      r[i].position.Some? && RightSlot(r[i].position.value) == i - UNDERGLOW_COUNT;
  }

  /** Where a left matrix position sits among the switch lights: row 0
      runs from column 4 down, row 1 up from 0, row 2 down again, then the
      thumbs from column 0. */
  function LeftSlot(p: (u8, u8)): int
  {
    var (c, r) := p;
    if r == 3 then 15 + c else if r == 1 then 5 + c else 5 * r + 4 - c
  }

  /** The right half's snake runs the other way round. */
  function RightSlot(p: (u8, u8)): int
  {
    var (c, r) := p;
    if r == 3 then 22 - c else if r == 1 then 14 - c else 5 * r + c - 5
  }
}
