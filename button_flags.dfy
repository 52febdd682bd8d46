/**
 * Flag values of the platform's racing-wheel button enumeration
 * (Windows.Gaming.Input.RacingWheelButtons), restricted to the flags the
 * service renders. The model relies only on each being a distinct single bit.
 */
module RacingWheelButtons {
  const PreviousGear: bv32 := 0x1
  const NextGear: bv32 := 0x2
  const DPadUp: bv32 := 0x4
  const DPadDown: bv32 := 0x8
  const DPadLeft: bv32 := 0x10
  const DPadRight: bv32 := 0x20
  const Button1: bv32 := 0x40
  const Button2: bv32 := 0x80
  const Button3: bv32 := 0x100
  const Button4: bv32 := 0x200
  const Button5: bv32 := 0x400
  const Button6: bv32 := 0x800
}

/**
 * Flag values of the platform's gamepad button enumeration
 * (Windows.Gaming.Input.GamepadButtons), restricted to the flags the service
 * renders. The model relies only on each being a distinct single bit.
 */
module GamepadButtons {
  const Menu: bv32 := 0x1
  const View: bv32 := 0x2
  const A: bv32 := 0x4
  const B: bv32 := 0x8
  const X: bv32 := 0x10
  const Y: bv32 := 0x20
  const DPadUp: bv32 := 0x40
  const DPadDown: bv32 := 0x80
  const DPadLeft: bv32 := 0x100
  const DPadRight: bv32 := 0x200
  const LeftShoulder: bv32 := 0x400
  const RightShoulder: bv32 := 0x800
}
