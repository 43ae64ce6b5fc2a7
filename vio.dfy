/**
 * The virtual I/O channels of the STM32L562E-DK board: a 32-bit output signal
 * word driving two LEDs, a 32-bit input signal word fed by the USER button,
 * one print memory per level echoed on the LCD, and small tables of integer
 * values, 3-D vectors (the first two read from the motion sensor) and IPv4 and
 * IPv6 addresses (shown on the LCD when set).
 *
 * Every index is checked: a setter with an index out of range does nothing and
 * a getter returns the zero value.  Hardware reads (button state, motion
 * sensor axes) are parameters of the operations that make them; LED switching
 * is recorded as a list of events.
 */
module Vio {

  import opened Options
  import opened CStrings
  import opened Console
  import AddressFormat

  type U32 = x: int | 0 <= x < 0x1_0000_0000
  type Int32 = x: int | -0x8000_0000 <= x < 0x8000_0000
  type Byte = AddressFormat.Byte

  const PRINT_MAX_SIZE := 64
  const PRINTMEM_NUM := 4
  const VALUE_NUM := 3
  const VALUEXYZ_NUM := 3
  const IPV4_ADDRESS_NUM := 2
  const IPV6_ADDRESS_NUM := 2

  /** Signal bits: the USER button in the input word, the red and green LEDs in the output word. */
  const BUTTON0: bv32 := 1
  const LED0: bv32 := 1
  const LED1: bv32 := 2

  /** Indices of the 3-D values the motion sensor supplies. */
  const MotionGyro := 0
  const MotionAccelero := 1

  /** vioValueXYZ_t. */
  datatype XYZ = XYZ(x: Int32, y: Int32, z: Int32)

  /** vioAddrIPv4_t and vioAddrIPv6_t: the address bytes in network order. */
  datatype AddrIPv4 = AddrIPv4(addr: seq<Byte>)
  datatype AddrIPv6 = AddrIPv6(addr: seq<Byte>)
  type Ip4 = a: AddrIPv4 | |a.addr| == 4 witness AddrIPv4([0, 0, 0, 0])
  type Ip6 = a: AddrIPv6 | |a.addr| == 16 witness AddrIPv6([0, 0, 0, 0, 0, 0, 0, 0, 0, 0, 0, 0, 0, 0, 0, 0])

  const ZeroXYZ := XYZ(0, 0, 0)
  const ZeroIp4: Ip4 := AddrIPv4([0, 0, 0, 0])
  const ZeroIp6: Ip6 := AddrIPv6([0, 0, 0, 0, 0, 0, 0, 0, 0, 0, 0, 0, 0, 0, 0, 0])

  datatype Led = Red | Green

  /** One BSP_LED_On (on) or BSP_LED_Off (not on) call. */
  datatype LedEvent = LedEvent(led: Led, on: bool)

  // ---------------------------------------------------------------------------
  // Signals
  // ---------------------------------------------------------------------------

  /** Lines 430-431: the bits of mask take their value from signal, the others keep theirs. */
  function MaskedWrite(word: bv32, mask: bv32, signal: bv32): (r: bv32)
    ensures r & !mask == word & !mask
    ensures r & mask == signal & mask
  {
    (word & !mask) | (mask & signal)
  }

  /** Writing the same bits twice is writing them once. */
  lemma MaskedWriteIdempotent(word: bv32, mask: bv32, signal: bv32)
    ensures MaskedWrite(MaskedWrite(word, mask, signal), mask, signal) == MaskedWrite(word, mask, signal)
  {
  }

  function LedBit(led: Led): bv32
  {
    if led == Red then LED0 else LED1
  }

  /** Lines 434-448: LED0 (red) and then LED1 (green) are switched when their bit is in mask, on when it is set in signal. */
  function LedUpdates(mask: bv32, signal: bv32): (r: seq<LedEvent>)
    ensures |r| <= 2
    ensures forall k :: 0 <= k < |r| ==> mask & LedBit(r[k].led) != 0
    ensures forall k :: 0 <= k < |r| ==> r[k].on == (signal & LedBit(r[k].led) != 0)
    ensures mask & LED0 != 0 <==> LedEvent(Red, signal & LED0 != 0) in r
    ensures mask & LED1 != 0 <==> LedEvent(Green, signal & LED1 != 0) in r
  {
    (if mask & LED0 != 0 then [LedEvent(Red, signal & LED0 != 0)] else [])
    + (if mask & LED1 != 0 then [LedEvent(Green, signal & LED1 != 0)] else [])
  }

  /** Each LED that is switched shows the bit the output word now holds for it. */
  lemma LedsFollowOutput(word: bv32, mask: bv32, signal: bv32)
    ensures forall e :: e in LedUpdates(mask, signal) ==>
              e.on == (MaskedWrite(word, mask, signal) & LedBit(e.led) != 0)
  {
    var w := MaskedWrite(word, mask, signal);
    if mask & LED0 != 0 {
      assert w & LED0 == signal & LED0;
    }
    if mask & LED1 != 0 {
      assert w & LED1 == signal & LED1;
    }
  }

  /**
   * Lines 461-468: when mask selects the button, bit 0 of the input word is
   * refreshed from the button; nothing else changes.
   */
  function ButtonSample(word: bv32, mask: bv32, pressed: bool): (r: bv32)
    ensures r & !BUTTON0 == word & !BUTTON0
    ensures mask & BUTTON0 != 0 ==> (r & BUTTON0 != 0 <==> pressed)
    ensures mask & BUTTON0 == 0 ==> r == word
  {
    if mask & BUTTON0 != 0 then
      if pressed then word | BUTTON0 else word & !BUTTON0
    else word
  }

  /** Asking for the button alone answers BUTTON0 exactly when it is pressed. */
  lemma ButtonRead(word: bv32, pressed: bool)
    ensures ButtonSample(word, BUTTON0, pressed) & BUTTON0 == if pressed then BUTTON0 else 0
  {
  }

  // ---------------------------------------------------------------------------
  // Indexed stores
  // ---------------------------------------------------------------------------

  /** A setter: an index inside the table is overwritten, any other index leaves it alone. */
  function Store<T>(s: seq<T>, id: int, v: T): (r: seq<T>)
    ensures |r| == |s|
  {
    if 0 <= id < |s| then s[id := v] else s
  }

  /** A getter: the entry at an index inside the table, the default at any other. */
  function Load<T>(s: seq<T>, id: int, default: T): T
  {
    if 0 <= id < |s| then s[id] else default
  }

  /** Reading an index just written returns the value written, or the default when the index is out of range. */
  lemma LoadStore<T>(s: seq<T>, id: int, v: T, default: T)
    ensures Load(Store(s, id, v), id, default) == if 0 <= id < |s| then v else default
  {
  }

  /** Writing one index leaves every other index as it was. */
  lemma LoadStoreOther<T>(s: seq<T>, id: int, v: T, other: int, default: T)
    requires other != id
    ensures Load(Store(s, id, v), other, default) == Load(s, other, default)
  {
  }

  /** Out of range, a setter changes nothing and a getter yields the default. */
  lemma OutOfRange<T>(s: seq<T>, id: int, v: T, default: T)
    requires !(0 <= id < |s|)
    ensures Store(s, id, v) == s && Load(s, id, default) == default
  {
  }

  // ---------------------------------------------------------------------------
  // Printing
  // ---------------------------------------------------------------------------

  /** What vsnprintf leaves in a 64-byte print memory before its NUL: at most 63 characters of the text. */
  function Formatted(text: string): (t: string)
    ensures |t| < PRINT_MAX_SIZE && t <= text
    ensures |text| < PRINT_MAX_SIZE ==> t == text
    ensures |text| >= PRINT_MAX_SIZE ==> |t| == PRINT_MAX_SIZE - 1
  {
    if |text| < PRINT_MAX_SIZE then text else text[..PRINT_MAX_SIZE - 1]
  }

  /** What displayString shows of a printed text: the stored part up to its first NUL. */
  function Shown(text: string): (t: string)
    ensures |t| < PRINT_MAX_SIZE && NUL !in t && t <= text
    ensures |t| < |Formatted(text)| ==> text[|t|] == NUL
    ensures NUL !in text ==> t == Formatted(text)
  {
    CText(Formatted(text))
  }

  /** A text shorter than the memory and free of NULs is shown in full. */
  lemma ShownShortText(text: string)
    requires |text| < PRINT_MAX_SIZE && NUL !in text
    ensures Shown(text) == text
  {
    var s := text + [NUL];
    assert s[|text|] == NUL;
    assert NUL !in s[..|text|] by { assert s[..|text|] == text; }
  }

  /** What the LCD shows for an IP address: a new line, then the address text. */
  function AddressLine(text: string): string
  {
    "\r\n" + text
  }

  /** The glyphs of an address line spell the address, each on a cell of the area. */
  lemma AddressLineGlyphs(a: Area, text: string)
    requires ValidArea(a) && LF !in text && CR !in text
    ensures GlyphChars(Render(a, AddressLine(text)).glyphs) == text
    ensures Render(a, AddressLine(text)).area.yPos >= a.yPos
  {
    RenderGlyphs(a, AddressLine(text));
    PrintableKeeps(text);
    PrintableAppend("\r\n", text);
    assert Printable("\r\n") == [] by {
      assert "\r\n"[..1] == "\r";
      assert "\r"[..0] == [];
    }
    RenderAppend(a, "\r\n", text);
    NewLine(a);
    RenderKeepsRowOrder(Render(a, "\r\n").area, text);
  }

  lemma {:induction false} PrintableKeeps(s: string)
    requires LF !in s && CR !in s
    ensures Printable(s) == s
    decreases |s|
  {
    if s != [] {
      PrintableKeeps(s[..|s| - 1]);
      assert s[..|s| - 1] + [s[|s| - 1]] == s;
    }
  }

  lemma {:induction false} PrintableAppend(s: string, t: string)
    ensures Printable(s + t) == Printable(s) + Printable(t)
    decreases |t|
  {
    if t == [] {
      assert s + t == s;
    } else {
      assert (s + t)[..|s + t| - 1] == s + t[..|t| - 1];
      PrintableAppend(s, t[..|t| - 1]);
    }
  }

  /** The cursor row never moves up while writing: scrolling keeps it on the last row. */
  lemma {:induction false} RenderKeepsRowOrder(a: Area, s: string)
    requires ValidArea(a)
    ensures Render(a, s).area.yPos >= a.yPos
    decreases |s|
  {
    if s != [] {
      RenderKeepsRowOrder(a, s[..|s| - 1]);
    }
  }

  // ---------------------------------------------------------------------------
  // The channel store
  // ---------------------------------------------------------------------------

  /** The variables of lines 56-70 and 75, and the LCD. */
  class Device {
    var signalIn: bv32
    var signalOut: bv32
    /** The LED switch calls made so far. */
    var leds: seq<LedEvent>
    const printMem: array2<char>
    const value: array<Int32>
    const valueXYZ: array<XYZ>
    const addrIPv4: array<Ip4>
    const addrIPv6: array<Ip6>
    const ipAscii: array<char>
    const lcd: Lcd

    ghost predicate Valid()
      reads this, lcd, lcd.display
    {
      printMem.Length0 == PRINTMEM_NUM && printMem.Length1 == PRINT_MAX_SIZE
      && value.Length == VALUE_NUM && valueXYZ.Length == VALUEXYZ_NUM
      && addrIPv4.Length == IPV4_ADDRESS_NUM && addrIPv6.Length == IPV6_ADDRESS_NUM
      && ipAscii.Length == 40
      && printMem as object != lcd.pixels && ipAscii as object != lcd.display
      && lcd.Valid()
    }

    /** One print memory as a value. */
    ghost function PrintMem(level: nat): (row: string)
      requires level < printMem.Length0
      reads printMem
      ensures |row| == printMem.Length1
    {
      seq(printMem.Length1, k requires 0 <= k < printMem.Length1 reads printMem => printMem[level, k])
    }

    /**
     * vioInit, lines 238-364: both signal words and every memory zeroed, the
     * screen cleared and the four text areas laid out for a display xSize pixels
     * wide.  The display must be at least 230 pixels high: the message area ends
     * at row 228 and the orange frame of lines 332-333 on rows ySize - 2 and ySize - 1.
     */
    constructor Init(xSize: nat, ySize: nat)
      requires 8 <= xSize <= 0x1_0000 - 7 && 230 <= ySize
      ensures Valid() && fresh(lcd) && fresh(lcd.display) && fresh(lcd.pixels)
      ensures signalIn == 0 && signalOut == 0 && leds == []
      ensures forall l, k :: 0 <= l < PRINTMEM_NUM && 0 <= k < PRINT_MAX_SIZE ==> printMem[l, k] == NUL
      ensures value[..] == [0, 0, 0] && valueXYZ[..] == [ZeroXYZ, ZeroXYZ, ZeroXYZ]
      ensures addrIPv4[..] == [ZeroIp4, ZeroIp4] && addrIPv6[..] == [ZeroIp6, ZeroIp6]
      ensures lcd.display[..] == Layout(xSize) && lcd.glyphs == []
      ensures lcd.pixels.Length0 == xSize && lcd.pixels.Length1 == ySize
      ensures forall x, y :: 0 <= x < xSize && 0 <= y < ySize ==> lcd.pixels[x, y] == BLACK
    {
      signalIn := 0;
      signalOut := 0;
      leds := [];
      printMem := new char[PRINTMEM_NUM, PRINT_MAX_SIZE]((l, k) => NUL);
      value := new Int32[VALUE_NUM](_ => 0);
      valueXYZ := new XYZ[VALUEXYZ_NUM](_ => ZeroXYZ);
      addrIPv4 := new Ip4[IPV4_ADDRESS_NUM](_ => ZeroIp4);
      addrIPv6 := new Ip6[IPV6_ADDRESS_NUM](_ => ZeroIp6);
      ipAscii := new char[40](_ => NUL);
      lcd := new Lcd(xSize, ySize);
    }

    /**
     * vioPrint, lines 368-421: a level above vioLevelError is refused with -1.
     * Otherwise the text goes into the level's print memory, cut to 63
     * characters and NUL-terminated, is written to the level's area of the LCD,
     * and its full length is returned.
     */
    method Print(level: U32, text: string) returns (ret: int)
      requires Valid()
      modifies printMem, lcd, lcd.display, lcd.pixels
      ensures Valid()
      ensures level > LevelError ==>
                ret == -1 && unchanged(printMem) && unchanged(lcd) && unchanged(lcd.display) && unchanged(lcd.pixels)
      ensures level <= LevelError ==> ret == |text|
      ensures level <= LevelError ==>
                PrintMem(level) == Formatted(text) + [NUL] + old(PrintMem(level))[|Formatted(text)| + 1..]
      ensures forall l, k :: 0 <= l < PRINTMEM_NUM && l != level && 0 <= k < PRINT_MAX_SIZE ==>
                printMem[l, k] == old(printMem[l, k])
      ensures level <= LevelError ==>
                lcd.display[level] == Render(old(lcd.display[level]), Shown(text)).area
                && lcd.glyphs == old(lcd.glyphs) + Render(old(lcd.display[level]), Shown(text)).glyphs
                && lcd.Frame() == ScrollTimes(old(lcd.Frame()), RegionOf(old(lcd.display[level])),
                                              Render(old(lcd.display[level]), Shown(text)).scrolls)
      ensures forall k :: 0 <= k < 4 && k != level ==> lcd.display[k] == old(lcd.display[k])
    {
      if level > LevelError {
        return -1;
      }
      // The second range check of the source, against the number of print memories, never fires.
      assert level < PRINTMEM_NUM;
      ret := Vsnprintf(level, text);
      var row := seq(PRINT_MAX_SIZE, k requires 0 <= k < PRINT_MAX_SIZE reads printMem => printMem[level, k]);
      assert row == PrintMem(level);
      CLenOfPrefix(Formatted(text), old(PrintMem(level))[|Formatted(text)| + 1..]);
      lcd.DisplayString(level, row);
      assert row == PrintMem(level);
    }

    /** vsnprintf into print memory level, line 386: the first 63 characters and a NUL; the length of the whole text is returned. */
    method Vsnprintf(level: nat, text: string) returns (n: int)
      requires Valid() && level < PRINTMEM_NUM
      modifies printMem
      ensures n == |text|
      ensures PrintMem(level) == Formatted(text) + [NUL] + old(PrintMem(level))[|Formatted(text)| + 1..]
      ensures forall l, k :: 0 <= l < PRINTMEM_NUM && l != level && 0 <= k < PRINT_MAX_SIZE ==>
                printMem[l, k] == old(printMem[l, k])
    {
      var t := Formatted(text);
      forall k | 0 <= k < |t| {
        printMem[level, k] := t[k];
      }
      printMem[level, |t|] := NUL;
      n := |text|;
      assert PrintMem(level) == t + [NUL] + old(PrintMem(level))[|t| + 1..];
    }

    /** vioSetSignal, lines 424-450: the masked bits of the output word are written and the selected LEDs switched. */
    method SetSignal(mask: bv32, signal: bv32)
      modifies this
      ensures signalOut == MaskedWrite(old(signalOut), mask, signal)
      ensures leds == old(leds) + LedUpdates(mask, signal)
      ensures signalIn == old(signalIn)
    {
      signalOut := signalOut & !mask;
      signalOut := signalOut | (mask & signal);
      SwitchLeds(mask, signal);
    }

    /** Lines 434-449: the red and then the green LED are switched when the mask selects them. */
    method SwitchLeds(mask: bv32, signal: bv32)
      modifies this
      ensures leds == old(leds) + LedUpdates(mask, signal)
      ensures signalOut == old(signalOut) && signalIn == old(signalIn)
    {
      var red := if mask & LED0 != 0 then [LedEvent(Red, signal & LED0 != 0)] else [];
      var green := if mask & LED1 != 0 then [LedEvent(Green, signal & LED1 != 0)] else [];
      if mask & LED0 != 0 {
        leds := leds + [LedEvent(Red, signal & LED0 != 0)];
      }
      assert leds == old(leds) + red;
      if mask & LED1 != 0 {
        leds := leds + [LedEvent(Green, signal & LED1 != 0)];
      }
      assert leds == old(leds) + red + green;
      assert red + green == LedUpdates(mask, signal);
    }

    /**
     * vioGetSignal, lines 454-475: the masked bits of the input word, after
     * sampling the button (pressed) when the mask asks for it.  The output word
     * is not read: a signal set is not a signal got.
     */
    method GetSignal(mask: bv32, pressed: bool) returns (signal: bv32)
      modifies this
      ensures signalIn == ButtonSample(old(signalIn), mask, pressed)
      ensures signal == signalIn & mask && signal & !mask == 0
      ensures signalOut == old(signalOut) && leds == old(leds)
    {
      if mask & BUTTON0 != 0 {
        if pressed {
          signalIn := signalIn | BUTTON0;
        } else {
          signalIn := signalIn & !BUTTON0;
        }
      }
      signal := signalIn;
      signal := signal & mask;
    }

    /** vioSetValue, lines 478-495. */
    method SetValue(id: U32, v: Int32)
      requires Valid()
      modifies value
      ensures value[..] == Store(old(value[..]), id, v)
    {
      if id >= VALUE_NUM {
        return;
      }
      value[id] := v;
    }

    /** vioGetValue, lines 498-519: the stored value, 0 for an index out of range. */
    method GetValue(id: U32) returns (v: Int32)
      requires Valid()
      ensures v == Load(value[..], id, 0)
      ensures id >= VALUE_NUM ==> v == 0
    {
      v := 0;
      if id >= VALUE_NUM {
        return v;
      }
      v := value[id];
    }

    /** vioSetXYZ, lines 522-539. */
    method SetXYZ(id: U32, v: XYZ)
      requires Valid()
      modifies valueXYZ
      ensures valueXYZ[..] == Store(old(valueXYZ[..]), id, v)
    {
      if id >= VALUEXYZ_NUM {
        return;
      }
      valueXYZ[id] := v;
    }

    /**
     * vioGetXYZ, lines 542-576: for the gyroscope and accelerometer indices the
     * sensor is read first (reading; None when BSP_MOTION_SENSOR_GetAxes fails)
     * and a successful reading is stored; then the stored vector is returned,
     * the zero vector for an index out of range.
     */
    method GetXYZ(id: U32, reading: Option<XYZ>) returns (v: XYZ)
      requires Valid()
      modifies valueXYZ
      ensures valueXYZ[..] ==
                if (id == MotionGyro || id == MotionAccelero) && reading.Some?
                then Store(old(valueXYZ[..]), id, reading.value) else old(valueXYZ[..])
      ensures v == Load(valueXYZ[..], id, ZeroXYZ)
      ensures (id == MotionGyro || id == MotionAccelero) && reading.Some? ==> v == reading.value
    {
      v := ZeroXYZ;
      if id >= VALUEXYZ_NUM {
        return v;
      }
      if id == MotionGyro && reading.Some? {
        valueXYZ[id] := reading.value;
      }
      if id == MotionAccelero && reading.Some? {
        valueXYZ[id] := reading.value;
      }
      v := valueXYZ[id];
    }

    /**
     * vioSetIPv4, lines 579-603: the address is stored and, when the index is in
     * range, written as dotted decimal into ip_ascii and shown on a new line of
     * the level-none area.
     */
    method SetIPv4(id: U32, a: Ip4)
      requires Valid()
      modifies addrIPv4, ipAscii, lcd, lcd.display, lcd.pixels
      ensures Valid()
      ensures addrIPv4[..] == Store(old(addrIPv4[..]), id, a)
      ensures id >= IPV4_ADDRESS_NUM ==>
                unchanged(ipAscii) && unchanged(lcd) && unchanged(lcd.display) && unchanged(lcd.pixels)
      ensures id < IPV4_ADDRESS_NUM ==>
                AddressFormat.HoldsCString(ipAscii[..], old(ipAscii[..]), AddressFormat.Ip4Text(a.addr))
      ensures id < IPV4_ADDRESS_NUM ==>
                var line := Render(old(lcd.display[LevelNone]), AddressLine(AddressFormat.Ip4Text(a.addr)));
                lcd.display[LevelNone] == line.area && lcd.glyphs == old(lcd.glyphs) + line.glyphs
                && lcd.Frame() == ScrollTimes(old(lcd.Frame()), RegionOf(old(lcd.display[LevelNone])), line.scrolls)
      ensures forall k :: 0 <= k < 4 && k != LevelNone ==> lcd.display[k] == old(lcd.display[k])
    {
      if id >= IPV4_ADDRESS_NUM {
        return;
      }
      addrIPv4[id] := a;
      AddressFormat.Ip4ToAscii(a.addr, ipAscii);
      AddressFormat.AddressTextsAvoidNul(a.addr, AddressFormat.Zeros(8));
      ShowAddress(AddressFormat.Ip4Text(a.addr));
    }

    /** vioGetIPv4, lines 606-627: the stored address, 0.0.0.0 for an index out of range. */
    method GetIPv4(id: U32) returns (a: Ip4)
      requires Valid()
      ensures a == Load(addrIPv4[..], id, ZeroIp4)
    {
      a := ZeroIp4;
      if id >= IPV4_ADDRESS_NUM {
        return a;
      }
      a := addrIPv4[id];
    }

    /**
     * vioSetIPv6, lines 630-654: the address is stored and, when the index is in
     * range, written in its canonical text form into ip_ascii and shown on a new
     * line of the level-none area.
     */
    method SetIPv6(id: U32, a: Ip6)
      requires Valid()
      modifies addrIPv6, ipAscii, lcd, lcd.display, lcd.pixels
      ensures Valid()
      ensures addrIPv6[..] == Store(old(addrIPv6[..]), id, a)
      ensures id >= IPV6_ADDRESS_NUM ==>
                unchanged(ipAscii) && unchanged(lcd) && unchanged(lcd.display) && unchanged(lcd.pixels)
      ensures id < IPV6_ADDRESS_NUM ==>
                AddressFormat.HoldsCString(ipAscii[..], old(ipAscii[..]),
                                           AddressFormat.Ip6Text(AddressFormat.Hextets(a.addr)))
      ensures id < IPV6_ADDRESS_NUM ==>
                var line := Render(old(lcd.display[LevelNone]),
                                   AddressLine(AddressFormat.Ip6Text(AddressFormat.Hextets(a.addr))));
                lcd.display[LevelNone] == line.area && lcd.glyphs == old(lcd.glyphs) + line.glyphs
                && lcd.Frame() == ScrollTimes(old(lcd.Frame()), RegionOf(old(lcd.display[LevelNone])), line.scrolls)
      ensures forall k :: 0 <= k < 4 && k != LevelNone ==> lcd.display[k] == old(lcd.display[k])
    {
      if id >= IPV6_ADDRESS_NUM {
        return;
      }
      addrIPv6[id] := a;
      AddressFormat.Ip6ToAscii(a.addr, ipAscii);
      AddressFormat.AddressTextsAvoidNul([0, 0, 0, 0], AddressFormat.Hextets(a.addr));
      AddressFormat.Ip6TextRoundTrip(AddressFormat.Hextets(a.addr));
      ShowAddress(AddressFormat.Ip6Text(AddressFormat.Hextets(a.addr)));
    }

    /** vioGetIPv6, lines 657-679: the stored address, :: for an index out of range. */
    method GetIPv6(id: U32) returns (a: Ip6)
      requires Valid()
      ensures a == Load(addrIPv6[..], id, ZeroIp6)
    {
      a := ZeroIp6;
      if id >= IPV6_ADDRESS_NUM {
        return a;
      }
      a := addrIPv6[id];
    }

    /**
     * Lines 599-600 and 650-651: "\r\n" and then the C string in ip_ascii,
     * which holds text, written to the level-none area.
     */
    method ShowAddress(ghost text: string)
      requires Valid() && |text| < ipAscii.Length && NUL !in text
      requires ipAscii[..|text|] == text && ipAscii[|text|] == NUL
      modifies lcd, lcd.display, lcd.pixels
      ensures Valid()
      ensures var line := Render(old(lcd.display[LevelNone]), AddressLine(text));
              lcd.display[LevelNone] == line.area && lcd.glyphs == old(lcd.glyphs) + line.glyphs
              && lcd.Frame() == ScrollTimes(old(lcd.Frame()), RegionOf(old(lcd.display[LevelNone])), line.scrolls)
      ensures forall k :: 0 <= k < 4 && k != LevelNone ==> lcd.display[k] == old(lcd.display[k])
    {
      var buf := ipAscii[..];
      assert buf[..|text|] == text && buf[|text|] == NUL;
      CLenOfPrefix(text, buf[|text| + 1..]);
      assert buf == text + [NUL] + buf[|text| + 1..];
      assert buf[..CLen(buf)] == text;
      lcd.DisplayLine(LevelNone, buf);
    }
  }
}
