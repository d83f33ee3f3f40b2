/** Host-to-device messages and the side they are addressed to
    (shared/src/host_to_device.rs, shared/src/side.rs). The message body
    is not inspected when routing, so it is abstracted to a number. */
module HostToDevice {

  import opened Util

  datatype KeyboardSide = Left | Right

  function Other(s: KeyboardSide): KeyboardSide
  {
    if s == Left then Right else Left
  }

  /** `target_side`: `None` addresses both halves. */
  datatype HostToDevice = HostToDevice(targetSide: Option<KeyboardSide>, msg: nat)

  /** `targets_side`. */
  function TargetsSide(m: HostToDevice, side: KeyboardSide): (r: bool)
    ensures m.targetSide.None? ==> r
    ensures m.targetSide.Some? ==> (r <==> side == m.targetSide.value)
  {
    if m.targetSide.None? then true else side == m.targetSide.value
  }

  /** The sides a message reaches. */
  function Targets(m: HostToDevice): set<KeyboardSide>
  {
    set s: KeyboardSide | s in {Left, Right} && TargetsSide(m, s)
  }

  /** An untargeted message reaches both halves; a targeted one reaches
      its side and not the other; the body never matters. */
  lemma {:induction false} TargetsExactly(m: HostToDevice, body: nat)
    ensures m.targetSide.None? ==> Targets(m) == {Left, Right}
    ensures m.targetSide.Some? ==> Targets(m) == {m.targetSide.value}
    ensures m.targetSide.Some? ==> !TargetsSide(m, Other(m.targetSide.value))
    ensures Targets(m.(msg := body)) == Targets(m)
  {
    assert TargetsSide(m, Left) == TargetsSide(m.(msg := body), Left);
    assert TargetsSide(m, Right) == TargetsSide(m.(msg := body), Right);
    if m.targetSide.Some? {
      var s := m.targetSide.value;
      assert s in Targets(m);
      assert Other(s) !in Targets(m);
      forall t: KeyboardSide | t in Targets(m) ensures t == s {
      }
    } else {
      assert Left in Targets(m) && Right in Targets(m);
    }
  }
}
