/** The subset of Linux's input event codes that the bridge emits. */
module InputCodes {
  const EV_SYN := 0x00
  const EV_KEY := 0x01
  const EV_REL := 0x02
  const EV_ABS := 0x03
  const EV_MSC := 0x04
  const REL_X := 0x00
  const REL_Y := 0x01
  const REL_WHEEL := 0x08
  const ABS_X := 0x00
  const ABS_Y := 0x01
  const ABS_MT_SLOT := 0x2f
  const ABS_MT_POSITION_X := 0x35
  const ABS_MT_POSITION_Y := 0x36
  const ABS_MT_TRACKING_ID := 0x39
  const BTN_LEFT := 0x110
  const BTN_RIGHT := 0x111
  const BTN_MIDDLE := 0x112
  const BTN_TOUCH := 0x14a
  const KEY_UNKNOWN := 0
  const KEY_ESC := 1
  const KEY_1 := 2
  const KEY_2 := 3
  const KEY_3 := 4
  const KEY_4 := 5
  const KEY_5 := 6
  const KEY_6 := 7
  const KEY_7 := 8
  const KEY_8 := 9
  const KEY_9 := 10
  const KEY_0 := 11
  const KEY_MINUS := 12
  const KEY_EQUAL := 13
  const KEY_BACKSPACE := 14
  const KEY_TAB := 15
  const KEY_Q := 16
  const KEY_W := 17
  const KEY_E := 18
  const KEY_R := 19
  const KEY_T := 20
  const KEY_Y := 21
  const KEY_U := 22
  const KEY_I := 23
  const KEY_O := 24
  const KEY_P := 25
  const KEY_LEFTBRACE := 26
  const KEY_RIGHTBRACE := 27
  const KEY_ENTER := 28
  const KEY_LEFTCTRL := 29
  const KEY_A := 30
  const KEY_S := 31
  const KEY_D := 32
  const KEY_F := 33
  const KEY_G := 34
  const KEY_H := 35
  const KEY_J := 36
  const KEY_K := 37
  const KEY_L := 38
  const KEY_SEMICOLON := 39
  const KEY_APOSTROPHE := 40
  const KEY_GRAVE := 41
  const KEY_LEFTSHIFT := 42
  const KEY_BACKSLASH := 43
  const KEY_Z := 44
  const KEY_X := 45
  const KEY_C := 46
  const KEY_V := 47
  const KEY_B := 48
  const KEY_N := 49
  const KEY_M := 50
  const KEY_COMMA := 51
  const KEY_DOT := 52
  const KEY_SLASH := 53
  const KEY_RIGHTSHIFT := 54
  const KEY_LEFTALT := 56
  const KEY_SPACE := 57
  const KEY_CAPSLOCK := 58
  const KEY_F1 := 59
  const KEY_F2 := 60
  const KEY_F3 := 61
  const KEY_F4 := 62
  const KEY_F5 := 63
  const KEY_F6 := 64
  const KEY_F7 := 65
  const KEY_F8 := 66
  const KEY_F9 := 67
  const KEY_F10 := 68
  const KEY_F11 := 87
  const KEY_F12 := 88
  const KEY_HOME := 102
  const KEY_UP := 103
  const KEY_PAGEUP := 104
  const KEY_LEFT := 105
  const KEY_RIGHT := 106
  const KEY_END := 107
  const KEY_DOWN := 108
  const KEY_PAGEDOWN := 109
  const KEY_DELETE := 111
  const KEY_RIGHTCTRL := 97
  const KEY_RIGHTALT := 100
  const KEY_LEFTMETA := 125
  const KEY_RIGHTMETA := 126
}

/** The keyboard page of the HID usage tables (page 0x07) against Linux key codes. */
module HidKeys {
  import opened Words
  import opened InputCodes

  /** hid_to_linux_key: KEY_UNKNOWN for the holes of the table and for usages past its end. */
  function HidToLinuxKey(usage: uint32): nat {
    match usage
    case 0x04 => KEY_A
    case 0x05 => KEY_B
    case 0x06 => KEY_C
    case 0x07 => KEY_D
    case 0x08 => KEY_E
    case 0x09 => KEY_F
    case 0x0A => KEY_G
    case 0x0B => KEY_H
    case 0x0C => KEY_I
    case 0x0D => KEY_J
    case 0x0E => KEY_K
    case 0x0F => KEY_L
    case 0x10 => KEY_M
    case 0x11 => KEY_N
    case 0x12 => KEY_O
    case 0x13 => KEY_P
    case 0x14 => KEY_Q
    case 0x15 => KEY_R
    case 0x16 => KEY_S
    case 0x17 => KEY_T
    case 0x18 => KEY_U
    case 0x19 => KEY_V
    case 0x1A => KEY_W
    case 0x1B => KEY_X
    case 0x1C => KEY_Y
    case 0x1D => KEY_Z
    case 0x1E => KEY_1
    case 0x1F => KEY_2
    case 0x20 => KEY_3
    case 0x21 => KEY_4
    case 0x22 => KEY_5
    case 0x23 => KEY_6
    case 0x24 => KEY_7
    case 0x25 => KEY_8
    case 0x26 => KEY_9
    case 0x27 => KEY_0
    case 0x28 => KEY_ENTER
    case 0x29 => KEY_ESC
    case 0x2A => KEY_BACKSPACE
    case 0x2B => KEY_TAB
    case 0x2C => KEY_SPACE
    case 0x2D => KEY_MINUS
    case 0x2E => KEY_EQUAL
    case 0x2F => KEY_LEFTBRACE
    case 0x30 => KEY_RIGHTBRACE
    case 0x31 => KEY_BACKSLASH
    case 0x33 => KEY_SEMICOLON
    case 0x34 => KEY_APOSTROPHE
    case 0x35 => KEY_GRAVE
    case 0x36 => KEY_COMMA
    case 0x37 => KEY_DOT
    case 0x38 => KEY_SLASH
    case 0x39 => KEY_CAPSLOCK
    case 0x3A => KEY_F1
    case 0x3B => KEY_F2
    case 0x3C => KEY_F3
    case 0x3D => KEY_F4
    case 0x3E => KEY_F5
    case 0x3F => KEY_F6
    case 0x40 => KEY_F7
    case 0x41 => KEY_F8
    case 0x42 => KEY_F9
    case 0x43 => KEY_F10
    case 0x44 => KEY_F11
    case 0x45 => KEY_F12
    case 0x4F => KEY_RIGHT
    case 0x50 => KEY_LEFT
    case 0x51 => KEY_DOWN
    case 0x52 => KEY_UP
    case 0x4A => KEY_HOME
    case 0x4D => KEY_END
    case 0x4B => KEY_PAGEUP
    case 0x4E => KEY_PAGEDOWN
    case 0x4C => KEY_DELETE
    case 0xE0 => KEY_LEFTCTRL
    case 0xE1 => KEY_LEFTSHIFT
    case 0xE2 => KEY_LEFTALT
    case 0xE3 => KEY_LEFTMETA
    case 0xE4 => KEY_RIGHTCTRL
    case 0xE5 => KEY_RIGHTSHIFT
    case 0xE6 => KEY_RIGHTALT
    case 0xE7 => KEY_RIGHTMETA
    case _ => KEY_UNKNOWN
  }

  /** The usage that yields a key code, or 0; the codes by their numbers in the Linux input event list. */
  function UsageOfKey(key: nat): uint32 {
    if key == 0 then 0
    else if key == 30 then 0x04
    else if key == 48 then 0x05
    else if key == 46 then 0x06
    else if key == 32 then 0x07
    else if key == 18 then 0x08
    else if key == 33 then 0x09
    else if key == 34 then 0x0A
    else if key == 35 then 0x0B
    else if key == 23 then 0x0C
    else if key == 36 then 0x0D
    else if key == 37 then 0x0E
    else if key == 38 then 0x0F
    else if key == 50 then 0x10
    else if key == 49 then 0x11
    else if key == 24 then 0x12
    else if key == 25 then 0x13
    else if key == 16 then 0x14
    else if key == 19 then 0x15
    else if key == 31 then 0x16
    else if key == 20 then 0x17
    else if key == 22 then 0x18
    else if key == 47 then 0x19
    else if key == 17 then 0x1A
    else if key == 45 then 0x1B
    else if key == 21 then 0x1C
    else if key == 44 then 0x1D
    else if key == 2 then 0x1E
    else if key == 3 then 0x1F
    else if key == 4 then 0x20
    else if key == 5 then 0x21
    else if key == 6 then 0x22
    else if key == 7 then 0x23
    else if key == 8 then 0x24
    else if key == 9 then 0x25
    else if key == 10 then 0x26
    else if key == 11 then 0x27
    else if key == 28 then 0x28
    else if key == 1 then 0x29
    else if key == 14 then 0x2A
    else if key == 15 then 0x2B
    else if key == 57 then 0x2C
    else if key == 12 then 0x2D
    else if key == 13 then 0x2E
    else if key == 26 then 0x2F
    else if key == 27 then 0x30
    else if key == 43 then 0x31
    else if key == 39 then 0x33
    else if key == 40 then 0x34
    else if key == 41 then 0x35
    else if key == 51 then 0x36
    else if key == 52 then 0x37
    else if key == 53 then 0x38
    else if key == 58 then 0x39
    else if key == 59 then 0x3A
    else if key == 60 then 0x3B
    else if key == 61 then 0x3C
    else if key == 62 then 0x3D
    else if key == 63 then 0x3E
    else if key == 64 then 0x3F
    else if key == 65 then 0x40
    else if key == 66 then 0x41
    else if key == 67 then 0x42
    else if key == 68 then 0x43
    else if key == 87 then 0x44
    else if key == 88 then 0x45
    else if key == 106 then 0x4F
    else if key == 105 then 0x50
    else if key == 108 then 0x51
    else if key == 103 then 0x52
    else if key == 102 then 0x4A
    else if key == 107 then 0x4D
    else if key == 104 then 0x4B
    else if key == 109 then 0x4E
    else if key == 111 then 0x4C
    else if key == 29 then 0xE0
    else if key == 42 then 0xE1
    else if key == 56 then 0xE2
    else if key == 125 then 0xE3
    else if key == 97 then 0xE4
    else if key == 54 then 0xE5
    else if key == 100 then 0xE6
    else if key == 126 then 0xE7
    else 0
  }

  /** The two tables are inverse: a usage has a key code exactly when the reverse table leads back to it. */
  lemma UsageRecovered(usage: uint32, key: nat)
    requires key != KEY_UNKNOWN
    ensures HidToLinuxKey(usage) == key <==> usage != 0 && UsageOfKey(key) == usage
  {
  }

  /** No two mapped usages share a key code. */
  lemma MappedUsagesDistinct(a: uint32, b: uint32)
    requires HidToLinuxKey(a) == HidToLinuxKey(b) != KEY_UNKNOWN
    ensures a == b
  {
    UsageRecovered(a, HidToLinuxKey(a));
    UsageRecovered(b, HidToLinuxKey(b));
  }

  lemma KeyCodesBelowButtons(usage: uint32)
    ensures HidToLinuxKey(usage) <= KEY_RIGHTMETA < BTN_LEFT
    ensures HidToLinuxKey(usage) == KEY_LEFTMETA <==> usage == 0xE3
  {
  }
}
