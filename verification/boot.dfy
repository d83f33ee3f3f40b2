/** Start-up logic shared by the firmware (firmware/src/lib.rs) and the
    bootloader (bootloader/src/bin.rs): the double-tap check that enters
    the ROM's USB boot when the chip is reset twice in quick succession,
    the side and USB detection pins, and the bootloader's jump into the
    application.

    `BOOTLOADER_MAGIC` lives in a section that survives a reset, so its value
    is what the previous boot left there. Both files carry the same
    `check_bootloader`, modelled once. */
module Boot {

  import opened Util
  import HostToDevice

  const MAGIC_TOKEN: u32 := 0xCAFE_B0BA
  const CYCLES_PER_US: nat := 125
  /** 100 ms at 125 MHz. */
  const WAIT_CYCLES: nat := 100 * 1000 * CYCLES_PER_US
  /** `reset_to_usb_boot`'s activity-LED mask, GPIO 17. */
  const USB_BOOT_GPIO_MASK: u32 := 0x2_0000

  datatype Effect =
    | StoreMagic(value: u32)
    | DelayCycles(cycles: nat)
    | ResetToUsbBoot(gpioMask: u32, disableInterfaces: u32)
    | SetPin(pin: nat, high: bool)
    | WriteVtor(address: u32)
    | Jump(address: u32)

  /** `check_bootloader` run to completion from the stored value `magic`:
      the effects, and whether it returned (rather than entering USB boot).
      It returns exactly when the token was absent, storing the token and
      waiting first; otherwise it ends in USB boot. Either way the last
      value it stores is 0. */
  function CheckBootloader(magic: u32): (r: (seq<Effect>, bool))
    ensures r.1 <==> magic != MAGIC_TOKEN
    ensures |r.0| >= 2
    ensures MagicAfter(magic, r.0) == 0
    ensures r.1 ==> r.0[0] == StoreMagic(MAGIC_TOKEN) && r.0[1] == DelayCycles(WAIT_CYCLES)
    ensures !r.1 ==> r.0[|r.0| - 1] == ResetToUsbBoot(USB_BOOT_GPIO_MASK, 0)
  {
    if magic != MAGIC_TOKEN then
      ([StoreMagic(MAGIC_TOKEN), DelayCycles(WAIT_CYCLES), StoreMagic(0)], true)
    else
      ([StoreMagic(0), ResetToUsbBoot(USB_BOOT_GPIO_MASK, 0)], false)
  }

  /** The stored value after a prefix of effects (the ones executed before
      a reset cut the run short). */
  function MagicAfter(magic: u32, effects: seq<Effect>): (m: u32)
    decreases |effects|
  {
    if effects == [] then magic
    else
      var last := effects[|effects| - 1];
      if last.StoreMagic? then last.value else MagicAfter(magic, effects[..|effects| - 1])
  }

  /** The window of the double tap: a reset during the delay (after the
      token is stored, before it is cleared) leaves the token, and the next
      boot then enters USB boot and clears it. A boot that is not
      interrupted leaves 0, so the next boot returns normally. */
  lemma {:induction false} DoubleTap(magic: u32)
    requires magic != MAGIC_TOKEN
    ensures var interrupted := CheckBootloader(magic).0[..2];
      MagicAfter(magic, interrupted) == MAGIC_TOKEN
      && !CheckBootloader(MagicAfter(magic, interrupted)).1
    ensures CheckBootloader(MagicAfter(magic, CheckBootloader(magic).0)).1
  {
    var effects := CheckBootloader(magic).0;
    var interrupted := effects[..2];
    assert interrupted[..1] == [StoreMagic(MAGIC_TOKEN)];
    assert MagicAfter(magic, interrupted) == MagicAfter(magic, interrupted[..1]);
  }

  /** A reset at any point of `check_bootloader` leaves either the old value,
      the token or 0: nothing else is ever stored. */
  lemma {:induction false} InterruptedCheck(magic: u32, k: nat)
    requires k <= |CheckBootloader(magic).0|
    ensures var m := MagicAfter(magic, CheckBootloader(magic).0[..k]);
      m == magic || m == MAGIC_TOKEN || m == 0
  {
    var effects := CheckBootloader(magic).0;
    if k == 0 {
    } else if k == 1 {
      assert effects[..1] == [effects[0]];
    } else if k == 2 {
      assert effects[..2][..1] == effects[..1];
    } else {
      assert effects[..k] == effects;
    }
  }

  /** `detect_side`: the right half has pin 29 pulled high. */
  function DetectSide(pinHigh: bool): (s: HostToDevice.KeyboardSide)
    ensures s == HostToDevice.Right <==> pinHigh
  {
    if pinHigh then HostToDevice.Right else HostToDevice.Left
  }

  /** `detect_usb`: the level of the VBUS sense pin 19. */
  function DetectUsb(pinHigh: bool): (connected: bool)
    ensures connected == pinHigh
  {
    pinHigh
  }

  /** The RP2040's execute-in-place flash window starts here. */
  const FLASH_BASE: u32 := 0x1000_0000

  /** The bootloader's `main`: raise the activity pin, run the check, and
      when it returns lower the pin, point VTOR at the application's vector
      table and jump there. The application start is a linker symbol; the
      sum is a 32-bit addition, wrapping. */
  function BootloaderMain(magic: u32, applicationStart: u32): (effects: seq<Effect>)
    ensures var check := CheckBootloader(magic);
      var start := WrapU32(FLASH_BASE + applicationStart);
      |effects| >= 1 + |check.0| && effects[..1 + |check.0|] == [SetPin(17, true)] + check.0
      && (check.1 ==> effects[1 + |check.0|..] == [SetPin(17, false), WriteVtor(start), Jump(start)])
      && (!check.1 ==> |effects| == 1 + |check.0|)
  {
    var check := CheckBootloader(magic);
    var start := WrapU32(FLASH_BASE + applicationStart);
    var head := [SetPin(17, true)] + check.0;
    var effects := if check.1 then head + [SetPin(17, false), WriteVtor(start), Jump(start)] else head;
    assert effects[..|head|] == head;
    effects
  }

  /** VTOR is set to the very address jumped to, and only when the check
      returned: with the magic token present the application never runs. */
  lemma JumpUsesVtor(magic: u32, applicationStart: u32)
    ensures var e := BootloaderMain(magic, applicationStart);
      (magic != MAGIC_TOKEN <==> (exists i :: 0 <= i < |e| && e[i].Jump?))
      && forall i :: 0 < i < |e| && e[i].Jump? ==> e[i - 1] == WriteVtor(e[i].address)
  {
    var e := BootloaderMain(magic, applicationStart);
    var check := CheckBootloader(magic);
    if magic != MAGIC_TOKEN {
      assert |e| == 7 && e[6].Jump?;
    } else {
      assert |e| == 3;
      assert forall i :: 0 <= i < |e| ==> !e[i].Jump?;
    }
  }
}
