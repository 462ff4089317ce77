/**
  The key codes of src/include/kernel/keyboard.h and the two scan-code tables of
  src/kernel/drivers/keyboard.c.  Codes without a key, or beyond the tables, give 0.
*/
module KeyTables {
  import opened Common

  const KEY_LALT: nat := 52
  const KEY_LSHIFT: nat := 53
  const KEY_LCTRL: nat := 54
  const KEY_CAPSLOCK: nat := 63
  const KEY_RALT: nat := 86
  const KEY_RCTRL: nat := 87
  const KEY_LGUI: nat := 90
  const KEY_PRTSC: nat := 123
  const KEY_PAUSE: nat := 124
  const KEY_RSHIFT: nat := 125

  /** A plain code, a code behind 0xE0, the two keys with sequences of their own, or none. */
  datatype Scan = Plain(code: nat) | Extended(code: nat) | PrintScreen | PauseKey | NoScan

  /** scancode_table, in parts. */
  function PlainKey(code: nat): nat {
    if code < 0x10 then PlainKey1(code)
    else if code < 0x20 then PlainKey2(code)
    else if code < 0x30 then PlainKey3(code)
    else if code < 0x40 then PlainKey4(code)
    else if code < 0x50 then PlainKey5(code)
    else if code < 0x60 then PlainKey6(code)
    else if code < 0x70 then PlainKey7(code)
    else if code < 0x80 then PlainKey8(code)
    else PlainKey9(code)
  }

  function PlainKey1(code: nat): nat {
    match code
    case 0x01 => 10  // KEY_F9
    case 0x03 => 6  // KEY_F5
    case 0x04 => 4  // KEY_F3
    case 0x05 => 2  // KEY_F1
    case 0x06 => 3  // KEY_F2
    case 0x07 => 13  // KEY_F12
    case 0x09 => 11  // KEY_F10
    case 0x0A => 9  // KEY_F8
    case 0x0B => 7  // KEY_F6
    case 0x0C => 5  // KEY_F4
    case 0x0D => 50  // KEY_TAB
    case 0x0E => 51  // KEY_TILDE
    case _ => 0
  }

  function PlainKey2(code: nat): nat {
    match code
    case 0x11 => 52  // KEY_LALT
    case 0x12 => 53  // KEY_LSHIFT
    case 0x14 => 54  // KEY_LCTRL
    case 0x15 => 40  // KEY_Q
    case 0x16 => 14  // KEY_1
    case 0x1A => 49  // KEY_Z
    case 0x1B => 42  // KEY_S
    case 0x1C => 24  // KEY_A
    case 0x1D => 46  // KEY_W
    case 0x1E => 15  // KEY_2
    case _ => 0
  }

  function PlainKey3(code: nat): nat {
    match code
    case 0x21 => 26  // KEY_C
    case 0x22 => 47  // KEY_X
    case 0x23 => 27  // KEY_D
    case 0x24 => 28  // KEY_E
    case 0x25 => 17  // KEY_4
    case 0x26 => 16  // KEY_3
    case 0x29 => 55  // KEY_SPACE
    case 0x2A => 45  // KEY_V
    case 0x2B => 29  // KEY_F
    case 0x2C => 43  // KEY_T
    case 0x2D => 41  // KEY_R
    case 0x2E => 18  // KEY_5
    case _ => 0
  }

  function PlainKey4(code: nat): nat {
    match code
    case 0x31 => 37  // KEY_N
    case 0x32 => 25  // KEY_B
    case 0x33 => 31  // KEY_H
    case 0x34 => 30  // KEY_G
    case 0x35 => 48  // KEY_Y
    case 0x36 => 19  // KEY_6
    case 0x3A => 36  // KEY_M
    case 0x3B => 33  // KEY_J
    case 0x3C => 44  // KEY_U
    case 0x3D => 20  // KEY_7
    case 0x3E => 21  // KEY_8
    case _ => 0
  }

  function PlainKey5(code: nat): nat {
    match code
    case 0x41 => 56  // KEY_COMMA
    case 0x42 => 34  // KEY_K
    case 0x43 => 32  // KEY_I
    case 0x44 => 38  // KEY_O
    case 0x45 => 23  // KEY_0
    case 0x46 => 22  // KEY_9
    case 0x49 => 57  // KEY_PERIOD
    case 0x4A => 58  // KEY_SLASH
    case 0x4B => 35  // KEY_L
    case 0x4C => 59  // KEY_SEMICOLON
    case 0x4D => 39  // KEY_P
    case 0x4E => 60  // KEY_DASH
    case _ => 0
  }

  function PlainKey6(code: nat): nat {
    match code
    case 0x52 => 61  // KEY_APOS
    case 0x54 => 62  // KEY_LSBRACKET
    case 0x55 => 82  // KEY_EQUAL
    case 0x58 => 63  // KEY_CAPSLOCK
    case 0x59 => 125  // KEY_RSHIFT
    case 0x5A => 64  // KEY_ENTER
    case 0x5B => 65  // KEY_RSBRACKET
    case 0x5D => 66  // KEY_BACKSLASH
    case _ => 0
  }

  function PlainKey7(code: nat): nat {
    match code
    case 0x66 => 67  // KEY_BACKSPACE
    case 0x69 => 68  // KEY_NUMPAD1
    case 0x6B => 71  // KEY_NUMPAD4
    case 0x6C => 74  // KEY_NUMPAD7
    case _ => 0
  }

  function PlainKey8(code: nat): nat {
    match code
    case 0x70 => 77  // KEY_NUMPAD0
    case 0x71 => 78  // KEY_NUMPAD_PERIOD
    case 0x72 => 69  // KEY_NUMPAD2
    case 0x73 => 72  // KEY_NUMPAD5
    case 0x74 => 73  // KEY_NUMPAD6
    case 0x75 => 75  // KEY_NUMPAD8
    case 0x76 => 1  // KEY_ESCAPE
    case 0x77 => 79  // KEY_NUMLOCK
    case 0x78 => 12  // KEY_F11
    case 0x79 => 80  // KEY_NUMPAD_PLUS
    case 0x7A => 70  // KEY_NUMPAD3
    case 0x7B => 81  // KEY_NUMPAD_DASH
    case 0x7C => 83  // KEY_NUMPAD_STAR
    case 0x7D => 76  // KEY_NUMPAD9
    case 0x7E => 84  // KEY_SCROLLLOCK
    case _ => 0
  }

  function PlainKey9(code: nat): nat {
    match code
    case 0x83 => 8  // KEY_F7
    case _ => 0
  }

  /** alt_scancode_table, whose first entry is for 0x10, in parts. */
  function ExtendedKey(code: nat): nat {
    if code < 0x20 then ExtendedKey1(code)
    else if code < 0x40 then ExtendedKey2(code)
    else if code < 0x60 then ExtendedKey3(code)
    else ExtendedKey4(code)
  }

  function ExtendedKey1(code: nat): nat {
    match code
    case 0x10 => 85  // KEY_SEARCH
    case 0x11 => 86  // KEY_RALT
    case 0x14 => 87  // KEY_RCTRL
    case 0x15 => 88  // KEY_PREVTRACK
    case 0x18 => 89  // KEY_FAV
    case 0x1F => 90  // KEY_LGUI
    case _ => 0
  }

  function ExtendedKey2(code: nat): nat {
    match code
    case 0x20 => 91  // KEY_REFRESH
    case 0x21 => 92  // KEY_DVOL
    case 0x23 => 93  // KEY_MUTE
    case 0x27 => 94  // KEY_RGUI
    case 0x28 => 95  // KEY_WSTOP
    case 0x2B => 96  // KEY_CALC
    case 0x2F => 97  // KEY_APPS
    case 0x30 => 99  // KEY_WFORWARD
    case 0x32 => 98  // KEY_UVOL
    case 0x34 => 100  // KEY_PLAY
    case 0x37 => 101  // KEY_POWER
    case 0x38 => 102  // KEY_WBACK
    case 0x3A => 103  // KEY_WHOME
    case 0x3B => 104  // KEY_STOP
    case 0x3F => 105  // KEY_SLEEP
    case _ => 0
  }

  function ExtendedKey3(code: nat): nat {
    match code
    case 0x40 => 106  // KEY_MYPC
    case 0x48 => 107  // KEY_EMAIL
    case 0x4A => 108  // KEY_NUMPAD_SLASH
    case 0x4D => 109  // KEY_NEXTTRACK
    case 0x50 => 110  // KEY_MEDIA
    case 0x5A => 111  // KEY_NUMPAD_ENTER
    case 0x5E => 112  // KEY_WAKE
    case _ => 0
  }

  function ExtendedKey4(code: nat): nat {
    match code
    case 0x69 => 113  // KEY_END
    case 0x6B => 116  // KEY_LEFT
    case 0x6C => 122  // KEY_HOME
    case 0x70 => 115  // KEY_INSERT
    case 0x71 => 114  // KEY_DEL
    case 0x72 => 117  // KEY_DOWN
    case 0x74 => 118  // KEY_RIGHT
    case 0x75 => 119  // KEY_UP
    case 0x7A => 120  // KEY_PDOWN
    case 0x7D => 121  // KEY_PUP
    case _ => 0
  }

  /**
    How a set-2 keyboard sends each key, in the order in which keyboard.h numbers them: the
    make codes of the PS/2 set, written down key by key and not derived from the tables above.
  */
  function ScanOf(key: nat): Scan {
    if key < 16 then ScanOf1(key)
    else if key < 32 then ScanOf2(key)
    else if key < 48 then ScanOf3(key)
    else if key < 64 then ScanOf4(key)
    else if key < 80 then ScanOf5(key)
    else if key < 96 then ScanOf6(key)
    else if key < 112 then ScanOf7(key)
    else ScanOf8(key)
  }

  function ScanOf1(key: nat): Scan {
    match key
    case 1 => Plain(0x76)  // KEY_ESCAPE
    case 2 => Plain(0x05)  // KEY_F1
    case 3 => Plain(0x06)  // KEY_F2
    case 4 => Plain(0x04)  // KEY_F3
    case 5 => Plain(0x0C)  // KEY_F4
    case 6 => Plain(0x03)  // KEY_F5
    case 7 => Plain(0x0B)  // KEY_F6
    case 8 => Plain(0x83)  // KEY_F7
    case 9 => Plain(0x0A)  // KEY_F8
    case 10 => Plain(0x01)  // KEY_F9
    case 11 => Plain(0x09)  // KEY_F10
    case 12 => Plain(0x78)  // KEY_F11
    case 13 => Plain(0x07)  // KEY_F12
    case 14 => Plain(0x16)  // KEY_1
    case 15 => Plain(0x1E)  // KEY_2
    case _ => NoScan
  }

  function ScanOf2(key: nat): Scan {
    match key
    case 16 => Plain(0x26)  // KEY_3
    case 17 => Plain(0x25)  // KEY_4
    case 18 => Plain(0x2E)  // KEY_5
    case 19 => Plain(0x36)  // KEY_6
    case 20 => Plain(0x3D)  // KEY_7
    case 21 => Plain(0x3E)  // KEY_8
    case 22 => Plain(0x46)  // KEY_9
    case 23 => Plain(0x45)  // KEY_0
    case 24 => Plain(0x1C)  // KEY_A
    case 25 => Plain(0x32)  // KEY_B
    case 26 => Plain(0x21)  // KEY_C
    case 27 => Plain(0x23)  // KEY_D
    case 28 => Plain(0x24)  // KEY_E
    case 29 => Plain(0x2B)  // KEY_F
    case 30 => Plain(0x34)  // KEY_G
    case 31 => Plain(0x33)  // KEY_H
    case _ => NoScan
  }

  function ScanOf3(key: nat): Scan {
    match key
    case 32 => Plain(0x43)  // KEY_I
    case 33 => Plain(0x3B)  // KEY_J
    case 34 => Plain(0x42)  // KEY_K
    case 35 => Plain(0x4B)  // KEY_L
    case 36 => Plain(0x3A)  // KEY_M
    case 37 => Plain(0x31)  // KEY_N
    case 38 => Plain(0x44)  // KEY_O
    case 39 => Plain(0x4D)  // KEY_P
    case 40 => Plain(0x15)  // KEY_Q
    case 41 => Plain(0x2D)  // KEY_R
    case 42 => Plain(0x1B)  // KEY_S
    case 43 => Plain(0x2C)  // KEY_T
    case 44 => Plain(0x3C)  // KEY_U
    case 45 => Plain(0x2A)  // KEY_V
    case 46 => Plain(0x1D)  // KEY_W
    case 47 => Plain(0x22)  // KEY_X
    case _ => NoScan
  }

  function ScanOf4(key: nat): Scan {
    match key
    case 48 => Plain(0x35)  // KEY_Y
    case 49 => Plain(0x1A)  // KEY_Z
    case 50 => Plain(0x0D)  // KEY_TAB
    case 51 => Plain(0x0E)  // KEY_TILDE
    case 52 => Plain(0x11)  // KEY_LALT
    case 53 => Plain(0x12)  // KEY_LSHIFT
    case 54 => Plain(0x14)  // KEY_LCTRL
    case 55 => Plain(0x29)  // KEY_SPACE
    case 56 => Plain(0x41)  // KEY_COMMA
    case 57 => Plain(0x49)  // KEY_PERIOD
    case 58 => Plain(0x4A)  // KEY_SLASH
    case 59 => Plain(0x4C)  // KEY_SEMICOLON
    case 60 => Plain(0x4E)  // KEY_DASH
    case 61 => Plain(0x52)  // KEY_APOS
    case 62 => Plain(0x54)  // KEY_LSBRACKET
    case 63 => Plain(0x58)  // KEY_CAPSLOCK
    case _ => NoScan
  }

  function ScanOf5(key: nat): Scan {
    match key
    case 64 => Plain(0x5A)  // KEY_ENTER
    case 65 => Plain(0x5B)  // KEY_RSBRACKET
    case 66 => Plain(0x5D)  // KEY_BACKSLASH
    case 67 => Plain(0x66)  // KEY_BACKSPACE
    case 68 => Plain(0x69)  // KEY_NUMPAD1
    case 69 => Plain(0x72)  // KEY_NUMPAD2
    case 70 => Plain(0x7A)  // KEY_NUMPAD3
    case 71 => Plain(0x6B)  // KEY_NUMPAD4
    case 72 => Plain(0x73)  // KEY_NUMPAD5
    case 73 => Plain(0x74)  // KEY_NUMPAD6
    case 74 => Plain(0x6C)  // KEY_NUMPAD7
    case 75 => Plain(0x75)  // KEY_NUMPAD8
    case 76 => Plain(0x7D)  // KEY_NUMPAD9
    case 77 => Plain(0x70)  // KEY_NUMPAD0
    case 78 => Plain(0x71)  // KEY_NUMPAD_PERIOD
    case 79 => Plain(0x77)  // KEY_NUMLOCK
    case _ => NoScan
  }

  function ScanOf6(key: nat): Scan {
    match key
    case 80 => Plain(0x79)  // KEY_NUMPAD_PLUS
    case 81 => Plain(0x7B)  // KEY_NUMPAD_DASH
    case 82 => Plain(0x55)  // KEY_EQUAL
    case 83 => Plain(0x7C)  // KEY_NUMPAD_STAR
    case 84 => Plain(0x7E)  // KEY_SCROLLLOCK
    case 85 => Extended(0x10)  // KEY_SEARCH
    case 86 => Extended(0x11)  // KEY_RALT
    case 87 => Extended(0x14)  // KEY_RCTRL
    case 88 => Extended(0x15)  // KEY_PREVTRACK
    case 89 => Extended(0x18)  // KEY_FAV
    case 90 => Extended(0x1F)  // KEY_LGUI
    case 91 => Extended(0x20)  // KEY_REFRESH
    case 92 => Extended(0x21)  // KEY_DVOL
    case 93 => Extended(0x23)  // KEY_MUTE
    case 94 => Extended(0x27)  // KEY_RGUI
    case 95 => Extended(0x28)  // KEY_WSTOP
    case _ => NoScan
  }

  function ScanOf7(key: nat): Scan {
    match key
    case 96 => Extended(0x2B)  // KEY_CALC
    case 97 => Extended(0x2F)  // KEY_APPS
    case 98 => Extended(0x32)  // KEY_UVOL
    case 99 => Extended(0x30)  // KEY_WFORWARD
    case 100 => Extended(0x34)  // KEY_PLAY
    case 101 => Extended(0x37)  // KEY_POWER
    case 102 => Extended(0x38)  // KEY_WBACK
    case 103 => Extended(0x3A)  // KEY_WHOME
    case 104 => Extended(0x3B)  // KEY_STOP
    case 105 => Extended(0x3F)  // KEY_SLEEP
    case 106 => Extended(0x40)  // KEY_MYPC
    case 107 => Extended(0x48)  // KEY_EMAIL
    case 108 => Extended(0x4A)  // KEY_NUMPAD_SLASH
    case 109 => Extended(0x4D)  // KEY_NEXTTRACK
    case 110 => Extended(0x50)  // KEY_MEDIA
    case 111 => Extended(0x5A)  // KEY_NUMPAD_ENTER
    case _ => NoScan
  }

  function ScanOf8(key: nat): Scan {
    match key
    case 112 => Extended(0x5E)  // KEY_WAKE
    case 113 => Extended(0x69)  // KEY_END
    case 114 => Extended(0x71)  // KEY_DEL
    case 115 => Extended(0x70)  // KEY_INSERT
    case 116 => Extended(0x6B)  // KEY_LEFT
    case 117 => Extended(0x72)  // KEY_DOWN
    case 118 => Extended(0x74)  // KEY_RIGHT
    case 119 => Extended(0x75)  // KEY_UP
    case 120 => Extended(0x7A)  // KEY_PDOWN
    case 121 => Extended(0x7D)  // KEY_PUP
    case 122 => Extended(0x6C)  // KEY_HOME
    case 123 => PrintScreen  // KEY_PRTSC
    case 124 => PauseKey  // KEY_PAUSE
    case 125 => Plain(0x59)  // KEY_RSHIFT
    case _ => NoScan
  }

  /** The keys that keyboard_handle_keycode singles out, by what a keyboard sends for them. */
  lemma ModifierCodes()
    ensures ScanOf(KEY_LSHIFT) == Plain(0x12) && ScanOf(KEY_RSHIFT) == Plain(0x59)
    ensures ScanOf(KEY_CAPSLOCK) == Plain(0x58)
    ensures ScanOf(KEY_LCTRL) == Plain(0x14) && ScanOf(KEY_RCTRL) == Extended(0x14)
    ensures ScanOf(KEY_LALT) == Plain(0x11) && ScanOf(KEY_RALT) == Extended(0x11) && ScanOf(KEY_LGUI) == Extended(0x1F)
  {
  }

  /** The code of a key is looked up as the key; 0xE0 0x12 and 0xE0 0x7C are left to Print Screen. */
  predicate CodeOk(key: nat) {
    match ScanOf(key)
    case Plain(c) => PlainKey(c) == key && c <= 0x83
    case Extended(c) => ExtendedKey(c) == key && 0x10 <= c <= 0x7D && c != 0x12 && c != 0x7C
    case PrintScreen => key == KEY_PRTSC
    case PauseKey => key == KEY_PAUSE
    case NoScan => key == 0 || key > KEY_RSHIFT
  }

  /** A code of either table that means a key is that key's code. */
  predicate KeyOk(code: nat) {
    && (PlainKey(code) != 0 ==> ScanOf(PlainKey(code)) == Plain(code))
    && (ExtendedKey(code) != 0 ==> ScanOf(ExtendedKey(code)) == Extended(code))
  }

  lemma CodesOk1(key: nat)
    requires 0 <= key < 32
    ensures CodeOk(key)
  {
  }

  lemma CodesOk2(key: nat)
    requires 32 <= key < 64
    ensures CodeOk(key)
  {
  }

  lemma CodesOk3(key: nat)
    requires 64 <= key < 96
    ensures CodeOk(key)
  {
  }

  lemma CodesOk4(key: nat)
    requires 96 <= key
    ensures CodeOk(key)
  {
  }

  lemma KeysOk1(code: nat)
    requires 0x00 <= code < 0x20
    ensures KeyOk(code)
  {
  }

  lemma KeysOk2(code: nat)
    requires 0x20 <= code < 0x40
    ensures KeyOk(code)
  {
  }

  lemma KeysOk3(code: nat)
    requires 0x40 <= code < 0x60
    ensures KeyOk(code)
  {
  }

  lemma KeysOk4(code: nat)
    requires 0x60 <= code
    ensures KeyOk(code)
  {
  }

  /** For every key, looking up its code gives the key. */
  lemma TablesInvert(key: nat)
    ensures CodeOk(key)
  {
    hide *;
    if key < 32 {
      CodesOk1(key);
    } else if key < 64 {
      CodesOk2(key);
    } else if key < 96 {
      CodesOk3(key);
    } else {
      CodesOk4(key);
    }
  }

  /** For every code, the tables have the key of that code, or 0 if it is no key's. */
  lemma TablesOnlyInvert(code: nat)
    ensures KeyOk(code)
  {
    hide *;
    if code < 0x20 {
      KeysOk1(code);
    } else if code < 0x40 {
      KeysOk2(code);
    } else if code < 0x60 {
      KeysOk3(code);
    } else {
      KeysOk4(code);
    }
  }
}
