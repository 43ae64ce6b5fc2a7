# STM32L562E-DK virtual I/O driver — a Dafny model

This project models the CMSIS-Driver VIO implementation for the STM32L562E-DK
board (`Drivers/Platform/vio_STM32L562E-DK.c`) and proves what it does:

- **Address text** (module `AddressFormat`). `ip4_2a` writes four bytes as
  dotted decimal. `ip6_2a` reads sixteen bytes as eight big-endian hextets and
  looks for the longest run of two or more zero hextets; on a tie the left-most
  run wins. It then writes the groups in lower-case `%x`, with that run
  replaced by `::`. This is the canonical text form of section 4 of RFC 5952.
  - Pure functions `Ip4Text` and `Ip6Text` say what the text is.
  - Readers `ParseIp4` and `ParseIp6` are proved to invert them, so different
    addresses never share a text.
  - The C routines are methods over a character array. Their loops are proved
    to leave exactly that text, NUL-terminated, in the buffer. A buffer that is
    too short is left untouched.
- **The scrolling console** (module `Console`). `displayArea_t` becomes the
  datatype `Area`.
  - `Step` and `Render` say what one character and a whole string do to an
    area's cursor, and which glyphs they draw.
  - `ScrollOnce` and `ScrollTimes` say what scrolling does to the frame buffer.
  - The class `Lcd` holds the four areas and the frame buffer (a 2-D colour
    array) and changes them in place. `displayScrollVertical` and
    `displayString` do this, and are proved against those functions.
  - `GUI_DisplayChar` is recorded as a list of drawn glyphs.
- **C strings** (module `CStrings`). The NUL-terminated buffers the driver
  passes around: `CLen` is the index of the first NUL, and `CText` is the text
  before it.
- **The channel store** (module `Vio`). The class `Device` holds:
  - the signal words;
  - the print memories;
  - the value, vector and address tables;
  - the `ip_ascii` buffer;
  - the LCD.

  Each setter and getter checks its index. `vioPrint` refuses a bad level, then
  stores and shows the text. `vioSetIPv4` and `vioSetIPv6` show the address on
  a new line of the level-none area.

Hardware reads become parameters:
- the USER button state is the `pressed` argument of `GetSignal`;
- the motion-sensor axes are an `Option<XYZ>` argument of `GetXYZ`, where
  `None` means `BSP_MOTION_SENSOR_GetAxes` failed.

LED switching is recorded as a list of `LedEvent`s. The LCD width and height
are parameters of `Init`.

The C integer types are modelled as bounded subset types:
- `uint16_t` fields are `U16`;
- `uint32_t` ids are `U32`;
- `int32_t` values are `Int32`;
- the signal words are `bv32`, so `~`, `&` and `|` are the C bit operations.

## Model

| member | source | states |
|---|---|---|
| `AddressFormat.Numeral` | Drivers/Platform/vio_STM32L562E-DK.c:134 | Definition (no contract of its own): the digits of v in the base, most significant first, with no leading zeros. `NumeralRoundTrip` and `NumeralShape` state its properties. |
| `AddressFormat.Dec` | Drivers/Platform/vio_STM32L562E-DK.c:88 | Definition: `%d` of a non-negative value is its base-10 numeral. `DecLength` bounds it to 1-3 characters for a byte. |
| `AddressFormat.Hex` | Drivers/Platform/vio_STM32L562E-DK.c:134 | Definition: `%x` of a non-negative value is its base-16 numeral in lower case. `HexLength` bounds it to 1-4 characters for a hextet. |
| `AddressFormat.NumeralRoundTrip` | Drivers/Platform/vio_STM32L562E-DK.c:88 | The `%d` / `%x` numeral of any value reads back as that value. |
| `AddressFormat.NumeralShape` | Drivers/Platform/vio_STM32L562E-DK.c:134 | A numeral has at least one digit and only digits of its base. It starts with '0' exactly when the value is 0, so there are no leading zeros. |
| `AddressFormat.DecLength` | Drivers/Platform/vio_STM32L562E-DK.c:88 | A byte in `%d` takes 1 to 3 characters. |
| `AddressFormat.HexLength` | Drivers/Platform/vio_STM32L562E-DK.c:134 | A hextet in `%x` takes 1 to 4 characters. |
| `AddressFormat.Ip4Text` | Drivers/Platform/vio_STM32L562E-DK.c:88 | The `%d.%d.%d.%d` text of the four bytes is 7 to 15 characters long, so the 16 bytes `ip4_2a` demands hold it with its NUL. |
| `AddressFormat.Ip4TextRoundTrip` | Drivers/Platform/vio_STM32L562E-DK.c:88 | The dotted text is 7 to 15 characters long, so 16 bytes hold it with its NUL. It reads back as the same four bytes. |
| `AddressFormat.Ip4Example` | Drivers/Platform/vio_STM32L562E-DK.c:88 | {192,168,1,10} is written "192.168.1.10". |
| `AddressFormat.Ip4ToAscii` | Drivers/Platform/vio_STM32L562E-DK.c:84-89 | A buffer under 16 bytes is left unchanged. Otherwise it holds the dotted text, a NUL, and its old contents after that. |
| `AddressFormat.Hextets` | Drivers/Platform/vio_STM32L562E-DK.c:107-109 | Sixteen bytes give eight hextets, byte 2k high and byte 2k + 1 low. `HextetsRoundTrip` shows nothing is lost. |
| `AddressFormat.HextetsRoundTrip` | Drivers/Platform/vio_STM32L562E-DK.c:107-109 | Reading the 16 bytes as 8 big-endian hextets loses nothing: the bytes are recovered from them. |
| `AddressFormat.ReadHextets` | Drivers/Platform/vio_STM32L562E-DK.c:106-109 | The loop fills `v16` with exactly the big-endian hextets of the address. |
| `AddressFormat.ZeroLen` | Drivers/Platform/vio_STM32L562E-DK.c:117-121 | The inner scan counts the zero hextets from i on. It stops at the end or at a non-zero hextet. |
| `AddressFormat.ScanRuns` | Drivers/Platform/vio_STM32L562E-DK.c:111-132 | The scan never shortens the best run. It replaces the kept run only by a strictly longer one: when the best length is unchanged, so is its index. |
| `AddressFormat.ScanRunsChosen` | Drivers/Platform/vio_STM32L562E-DK.c:113-132 | The left-to-right scan, started at a run boundary with the best run so far, ends with the chosen run. |
| `AddressFormat.ChosenRun` | Drivers/Platform/vio_STM32L562E-DK.c:111-132 | The chosen run satisfies the choice rule. It is "none" exactly when every zero run is a single hextet. Otherwise it has length at least 2 and lies within the eight groups. |
| `AddressFormat.ChosenRunUnique` | Drivers/Platform/vio_STM32L562E-DK.c:125-129 | At most one run satisfies the rule: longest, and left-most among equally long runs. |
| `AddressFormat.FindZeroRun` | Drivers/Platform/vio_STM32L562E-DK.c:111-132 | The nested loops return a run that satisfies the choice rule. A lone zero is never taken, and an equally long run further right never replaces the current one. |
| `AddressFormat.TieRun` | Drivers/Platform/vio_STM32L562E-DK.c:125 | For [0,1,0,0,2,0,0,3] the run at index 2 of length 2 is chosen: the left-most of the two equal runs. |
| `AddressFormat.LoneZeroRun` | Drivers/Platform/vio_STM32L562E-DK.c:122-124 | For [1,0,2,3,4,5,6,7] no run is chosen. |
| `AddressFormat.TrailingRun` | Drivers/Platform/vio_STM32L562E-DK.c:117-121 | For [1,0,0,0,0,0,0,0] the run that reaches the last group is chosen: index 1, length 7. |
| `AddressFormat.Sprintf` | Drivers/Platform/vio_STM32L562E-DK.c:134 | `sprintf(&buf[j], ...)` writes the text at j and a NUL after it, returns its length, and changes nothing beyond the NUL. |
| `AddressFormat.PutColon` | Drivers/Platform/vio_STM32L562E-DK.c:138 | `buf[j++] = ':'` appends one colon and changes no other character. |
| `AddressFormat.PutHead` | Drivers/Platform/vio_STM32L562E-DK.c:133-139 | The buffer starts with the groups before the run, joined by ':'. The index stays below 5·idx, and nothing after it is touched. |
| `AddressFormat.PutGroupsAfterRun` | Drivers/Platform/vio_STM32L562E-DK.c:143-145 | After the head and one ':', each group after the run adds ":%x". |
| `AddressFormat.TailEnd` | Drivers/Platform/vio_STM32L562E-DK.c:146-148 | The text so far ends in ':' exactly when no group follows the run, and the extra ':' then completes "::". |
| `AddressFormat.PutTail` | Drivers/Platform/vio_STM32L562E-DK.c:140-149 | The buffer holds head + "::" + the groups after the run, and the index stays below 40. |
| `AddressFormat.Ip6ToAscii` | Drivers/Platform/vio_STM32L562E-DK.c:98-152 | A buffer under 40 bytes is left unchanged. Otherwise it holds the canonical text of the address, a NUL, and its old contents after that. |
| `AddressFormat.Ip6Text` | Drivers/Platform/vio_STM32L562E-DK.c:111-151 | Definition (no contract of its own): the groups joined by ':', with `ChosenRun` replaced by "::" when there is one. `Ip6ToAscii` is proved to write it; `Ip6TextRoundTrip` and `Ip6TextCompressesIff` state its properties. |
| `AddressFormat.ParseCompressed` | Drivers/Platform/vio_STM32L562E-DK.c:140-148 | Groups, "::", groups (fewer than eight in all) read back with the missing groups as zeros. |
| `AddressFormat.ParseUncompressed` | Drivers/Platform/vio_STM32L562E-DK.c:133-139 | Eight groups joined by single colons read back as themselves. |
| `AddressFormat.CompressedRoundTrip` | Drivers/Platform/vio_STM32L562E-DK.c:140-149 | Cutting a zero run of two or more out of eight hextets gives 2 to 39 characters that read back as the eight hextets. |
| `AddressFormat.Ip6TextRoundTrip` | Drivers/Platform/vio_STM32L562E-DK.c:133-151 | The canonical text is 2 to 39 characters long, so 40 bytes hold it with its NUL. It reads back as the same eight hextets. |
| `AddressFormat.Ip6TextCompressesIff` | Drivers/Platform/vio_STM32L562E-DK.c:122-148 | The text contains "::" exactly when the hextets contain a zero run of two or more. Otherwise the text is the eight groups joined by single colons. |
| `AddressFormat.Ip6ExampleTie` | Drivers/Platform/vio_STM32L562E-DK.c:125-129 | [0,1,0,0,2,0,0,3] is written "0:1::2:0:0:3". |
| `AddressFormat.Ip6ExampleDocumentation` | Drivers/Platform/vio_STM32L562E-DK.c:133-151 | 2001:db8:0:0:0:0:0:1 is written "2001:db8::1". |
| `AddressFormat.Ip6ExampleLoneZero` | Drivers/Platform/vio_STM32L562E-DK.c:122-124 | [1,0,2,3,4,5,6,7] is written "1:0:2:3:4:5:6:7": a lone zero is not compressed. |
| `AddressFormat.Ip6ExampleTrailingRun` | Drivers/Platform/vio_STM32L562E-DK.c:146-148 | [1,0,0,0,0,0,0,0] is written "1::". |
| `AddressFormat.Ip6ExampleUnspecified` | Drivers/Platform/vio_STM32L562E-DK.c:140-148 | Eight zero hextets are written "::". |
| `AddressFormat.AddressTextsAvoidNul` | Drivers/Platform/vio_STM32L562E-DK.c:151 | Neither text contains a NUL, so the C string ends at the terminator the routine writes. |
| `Console.Step` | Drivers/Platform/vio_STM32L562E-DK.c:203-224 | One character keeps the area's geometry and keeps the cursor on a character cell of the window. That is the cursor invariant: within the columns, at most on the last row, and a whole number of cells from the origin. |
| `Console.StepSpec` | Drivers/Platform/vio_STM32L562E-DK.c:203-224 | LF keeps the column and moves one row down, or scrolls exactly on the last row. CR returns to the first column without scrolling. Any other character is drawn at the old cursor on a cell of the window, then advances one column, or wraps to the first column of the next row, staying on the last row and scrolling exactly when it is already there. A glyph is drawn exactly for characters other than CR and LF. A scroll leaves the cursor on the last row. |
| `Console.Render` | Drivers/Platform/vio_STM32L562E-DK.c:199-228 | After any string the cursor invariant still holds and the geometry is the same. There are no more scrolls and glyphs than characters. |
| `Console.RenderSnoc` | Drivers/Platform/vio_STM32L562E-DK.c:199-200 | One more character of the string is one more `Step`, applied where the string so far left the cursor. |
| `Console.RenderAppend` | Drivers/Platform/vio_STM32L562E-DK.c:599-600 | Writing s and then t is writing s + t. The glyphs and scrolls add up, so `displayString` may be called piecewise. |
| `Console.TwoWrites` | Drivers/Platform/vio_STM32L562E-DK.c:599-600 | For two calls in a row: the final cursor, the scroll count (a sum) and the glyphs (a concatenation) are those of one call on the joined string. |
| `Console.RenderGlyphs` | Drivers/Platform/vio_STM32L562E-DK.c:213-215 | Exactly the characters other than CR and LF are drawn, in order, each on a character cell of the window. |
| `Console.RenderScrollsBound` | Drivers/Platform/vio_STM32L562E-DK.c:203-224 | Carriage returns never scroll: scrolls ≤ length − number of CRs. |
| `Console.RowsBelow` | Drivers/Platform/vio_STM32L562E-DK.c:203-209 | The rows of the window below the cursor: the cursor row plus that many rows fill the window exactly, and there are none exactly on the last row. |
| `Console.RenderLineFeeds` | Drivers/Platform/vio_STM32L562E-DK.c:199-209 | k line feeds keep the column and draw nothing. With d rows below the cursor, they move k rows down without scrolling when k ≤ d. Otherwise they end on the last row after exactly k − d scrolls. |
| `Console.NewLine` | Drivers/Platform/vio_STM32L562E-DK.c:599 | "\r\n" moves the cursor to the first column of the next row and draws nothing. On the last row it scrolls once and stays on that row. |
| `Console.ScrollOnce` | Drivers/Platform/vio_STM32L562E-DK.c:172-187 | One scroll keeps the frame's dimensions. Inside the region each pixel takes the one a row height below, and the last row height turns black. Outside the region nothing changes. `Lcd.ScrollVertical` is proved to produce it. |
| `Console.ScrollTimes` | Drivers/Platform/vio_STM32L562E-DK.c:205-206 | n scrolls of the same region, one per line feed or wrap below the last row, keep the frame's dimensions. `ScrollTimesPixel` gives each pixel. |
| `Console.RowsHeightIsProduct` | Drivers/Platform/vio_STM32L562E-DK.c:172-187 | The scroll distance of `ScrollTimesPixel`, summed row by row, is n font heights. |
| `Console.ScrollTimesPixel` | Drivers/Platform/vio_STM32L562E-DK.c:172-187 | After n scrolls, a pixel inside the window shows the pixel n rows below it, or black if that is past the bottom. Pixels outside the window keep their colour. |
| `Console.ScrollTimesAdd` | Drivers/Platform/vio_STM32L562E-DK.c:172-187 | Scrolling m times and then n times is scrolling m + n times. |
| `Console.ScrollKeepsOthers` | Drivers/Platform/vio_STM32L562E-DK.c:172-187 | Scrolling an area never changes a pixel of an area above or below it. |
| `CStrings.CLen` | Drivers/Platform/vio_STM32L562E-DK.c:199 | The loop stops at the first NUL: everything before it is non-NUL. |
| `CStrings.CText` | Drivers/Platform/vio_STM32L562E-DK.c:199 | The text `displayString` writes from a buffer is a NUL-free prefix of it. It stops only at a NUL or at the end, so a NUL-free buffer is taken whole. |
| `CStrings.CLenOfPrefix` | Drivers/Platform/vio_STM32L562E-DK.c:199 | A buffer holding t, a NUL and anything after it is read as exactly t. |
| `Console.Fresh` | Drivers/Platform/vio_STM32L562E-DK.c:294-328 | Definition (no contract of its own): an area 3 pixels in from the left edge, `rows` cells high from its y origin, with the cursor at the origin. `Layout` states the areas' properties. |
| `Console.Layout` | Drivers/Platform/vio_STM32L562E-DK.c:294-328 | Each area satisfies the cursor invariant with its cursor at its origin. Each has x origin 3 and right edge XSize − 4, and heights of 2, 2, 4 and 9 whole rows. The areas do not overlap and all end by pixel row 228. |
| `Console.Lcd.constructor` | Drivers/Platform/vio_STM32L562E-DK.c:285-328 | The screen is cleared to black, the areas are laid out as in `Layout`, and nothing has been drawn yet. |
| `Console.Lcd.ScrollVertical` | Drivers/Platform/vio_STM32L562E-DK.c:172-187 | The top-down in-place copy and the clearing of the last row leave exactly `ScrollOnce` of the old frame buffer. |
| `Console.Lcd.CopyRow` | Drivers/Platform/vio_STM32L562E-DK.c:176-179 | Pixel row y of the window takes the colours fontHeight rows below; every other pixel is unchanged. |
| `Console.Lcd.ClearRow` | Drivers/Platform/vio_STM32L562E-DK.c:183-185 | Pixel row y of the window turns black; every other pixel is unchanged. |
| `Console.Lcd.PutChar` | Drivers/Platform/vio_STM32L562E-DK.c:202-226 | One character moves the area's cursor as `Step` says and draws its glyph, if any. The frame buffer scrolls once when `Step` scrolls, and the other areas are unchanged. |
| `Console.Lcd.WriteNext` | Drivers/Platform/vio_STM32L562E-DK.c:199-226 | One iteration of the loop takes the state for `Render` of the first characters to the state for `Render` of one more. |
| `Console.Lcd.DisplayString` | Drivers/Platform/vio_STM32L562E-DK.c:195-229 | For the C string (at most 255 characters), the area's cursor becomes `Render`'s and the glyphs `Render`'s. The frame buffer is scrolled `Render`'s number of times, and the other areas are unchanged. |
| `Console.Lcd.DisplayLine` | Drivers/Platform/vio_STM32L562E-DK.c:599-600 | `displayString(idx, "\r\n")` followed by `displayString(idx, str)` has the effect of one `Render` of "\r\n" + str. |
| `Vio.MaskedWrite` | Drivers/Platform/vio_STM32L562E-DK.c:430-431 | The bits of mask take their value from signal, and all other bits keep theirs. |
| `Vio.MaskedWriteIdempotent` | Drivers/Platform/vio_STM32L562E-DK.c:430-431 | Setting the same masked signal twice is setting it once. |
| `Vio.LedUpdates` | Drivers/Platform/vio_STM32L562E-DK.c:434-449 | At most two LED calls. The red (green) LED is switched exactly when LED0 (LED1) is in the mask, on exactly when its bit is set in signal. |
| `Vio.LedsFollowOutput` | Drivers/Platform/vio_STM32L562E-DK.c:430-449 | Every LED switched shows the bit the output word now holds for it. |
| `Vio.ButtonSample` | Drivers/Platform/vio_STM32L562E-DK.c:463-469 | Only the BUTTON0 bit of the input word can change, and only when the mask selects it. It is then set exactly when the button is pressed. |
| `Vio.ButtonRead` | Drivers/Platform/vio_STM32L562E-DK.c:463-474 | Reading with mask BUTTON0 answers BUTTON0 when pressed and 0 otherwise. |
| `Vio.Store` | Drivers/Platform/vio_STM32L562E-DK.c:485-489 | A setter keeps the table's length: an index inside the table is overwritten, any other leaves it alone. `LoadStore`, `LoadStoreOther` and `OutOfRange` state its properties. |
| `Vio.Load` | Drivers/Platform/vio_STM32L562E-DK.c:507-517 | Definition (no contract of its own): a getter returns the entry at an index inside the table and the default at any other. |
| `Vio.LoadStore` | Drivers/Platform/vio_STM32L562E-DK.c:485-519 | A get after a set of the same index returns the value set, or the default when the index is out of range. |
| `Vio.LoadStoreOther` | Drivers/Platform/vio_STM32L562E-DK.c:485-489 | A set leaves every other index as it was. |
| `Vio.OutOfRange` | Drivers/Platform/vio_STM32L562E-DK.c:485-487 | Out of range, a set changes nothing and a get returns the default. |
| `Vio.Formatted` | Drivers/Platform/vio_STM32L562E-DK.c:386 | `vsnprintf` into 64 bytes keeps a prefix of the text: all of a text under 64 characters, exactly the first 63 characters of a longer one. |
| `Vio.Shown` | Drivers/Platform/vio_STM32L562E-DK.c:397 | What `displayString` gets from a print memory is a prefix of the text, under 64 characters and with no NUL. It stops early only at a NUL of the text, so a NUL-free text is shown exactly as stored. |
| `Vio.ShownShortText` | Drivers/Platform/vio_STM32L562E-DK.c:386-397 | A text of under 64 characters without NUL is shown in full. |
| `Vio.AddressLineGlyphs` | Drivers/Platform/vio_STM32L562E-DK.c:599-600 | The glyphs drawn for an address line spell the address, and the cursor row never moves up. |
| `Vio.RenderKeepsRowOrder` | Drivers/Platform/vio_STM32L562E-DK.c:204-223 | Writing never moves the cursor row up: scrolling keeps it on the last row. |
| `Vio.Device.Init` | Drivers/Platform/vio_STM32L562E-DK.c:249-328 | Both signal words are 0, and every print memory, value, vector and address is zero. The screen is black, the areas are laid out, and no glyph is drawn and no LED switched. |
| `Vio.Device.Print` | Drivers/Platform/vio_STM32L562E-DK.c:368-421 | A level above vioLevelError returns −1 and changes nothing. Otherwise: the level's memory holds the text cut to 63 characters plus a NUL; the text is rendered in that level's area; its full length is returned; other memories and areas are unchanged. |
| `Vio.Device.Vsnprintf` | Drivers/Platform/vio_STM32L562E-DK.c:386 | The level's memory holds the text cut to 63 characters plus a NUL, and the rest is unchanged. The full length is returned. |
| `Vio.Device.SetSignal` | Drivers/Platform/vio_STM32L562E-DK.c:424-451 | The output word becomes `MaskedWrite` of the old one, the LED calls of `LedUpdates` are made, and the input word is unchanged. |
| `Vio.Device.SwitchLeds` | Drivers/Platform/vio_STM32L562E-DK.c:434-449 | The LED calls made are exactly `LedUpdates(mask, signal)`, appended in order; neither signal word changes. |
| `Vio.Device.GetSignal` | Drivers/Platform/vio_STM32L562E-DK.c:454-475 | The input word is sampled as `ButtonSample` says. The result is the input word masked: no bit outside mask. The output word is not read. |
| `Vio.Device.SetValue` | Drivers/Platform/vio_STM32L562E-DK.c:478-495 | The table becomes `Store` of the old one: only an in-range index is written. |
| `Vio.Device.GetValue` | Drivers/Platform/vio_STM32L562E-DK.c:498-519 | Returns the stored value, or 0 for an index of 3 or more. |
| `Vio.Device.SetXYZ` | Drivers/Platform/vio_STM32L562E-DK.c:522-539 | The vector table becomes `Store` of the old one. |
| `Vio.Device.GetXYZ` | Drivers/Platform/vio_STM32L562E-DK.c:542-576 | For the gyroscope or accelerometer index, a successful sensor reading is stored and returned; a failed one keeps the stale vector. The stored vector is returned, or the zero vector out of range. |
| `Vio.Device.SetIPv4` | Drivers/Platform/vio_STM32L562E-DK.c:579-603 | Out of range, nothing changes. Otherwise the address is stored, `ip_ascii` holds its dotted text, and the level-none area shows "\r\n" + that text. |
| `Vio.Device.GetIPv4` | Drivers/Platform/vio_STM32L562E-DK.c:606-627 | Returns the stored address, or 0.0.0.0 out of range. |
| `Vio.Device.SetIPv6` | Drivers/Platform/vio_STM32L562E-DK.c:630-654 | Out of range, nothing changes. Otherwise the address is stored, `ip_ascii` holds its canonical text, and the level-none area shows "\r\n" + that text. |
| `Vio.Device.GetIPv6` | Drivers/Platform/vio_STM32L562E-DK.c:657-679 | Returns the stored address, or all zeros out of range. |
| `Vio.Device.ShowAddress` | Drivers/Platform/vio_STM32L562E-DK.c:596-601 | The C string in `ip_ascii` is written after "\r\n" to the level-none area, which then shows `Render` of the line. The other areas are unchanged. |

## Left out

- The mutex calls around drawing (`osMutexNew`, `osMutexAcquire`, `osMutexRelease`) are concurrency primitives; the model is single-threaded.
- `GUI_SetFont` and `GUI_SetTextColor` are not modelled, nor is the pixel work of `GUI_DisplayChar`. A drawn character is recorded as a `Glyph` (position and character). Font sizes appear only as the areas' cell sizes.
- `vsnprintf` argument formatting is not modelled. `Print` takes the already formatted text and returns its length. vsnprintf's negative return on an encoding error, and lengths beyond `int32_t`, are not modelled.
- Vio.Device.Init: the BSP calls and `GUI_SetFuncDriver` are left out as foreign hardware drivers. So is the orange frame drawn at lines 332-351. It lies outside every text area because the LCD must be at least 230 pixels high: the rectangles of lines 332-333 end on rows YSize − 2 and YSize − 1, below the message area's last row 227. The LCD size is a parameter.
- Only the build with neither `CMSIS_VOUT` nor `CMSIS_VIN` defined is modelled (lines 46-53, 72, 232, 239, 461, 554). The configurations in which the functions only update the memories are not: no LCD or LED output, and no button or motion-sensor refresh.
- The `vioSignalIn`/`vioSignalOut` words are separate variables in the code, so a signal that is set is not read back by a get. No set→get round trip is stated for signals because none holds. The model follows the code.
- Console.Lcd.DisplayString: the `uint8_t` index wraps after 255 characters. The precondition `CLen(str) <= 255` excludes this; every caller passes at most 63 characters.
- Console.WellFormed: the `uint16_t` cursor arithmetic could wrap for areas near 65535. Areas are required to leave room for one more cell, which holds for the layout of `vioInit` whenever the LCD is 8 to 65529 (0x10000 − 7) pixels wide. `Layout`, the `Lcd` constructor and `Device.Init` require this width, so wider displays, where the heading area's 11-pixel cursor step could wrap the `uint16_t` field, are not modelled.
- Vio.Device.Print: the second level check at line 380 (`level > VIO_PRINTMEM_NUM`) cannot fire after the first one. It is modelled as an assertion, not a branch.
- Tie rule: the code's `(j - i) >= nmax` compares a run's length minus one with the best length, so only a strictly longer run replaces the current one and the left-most run wins a tie. The model follows this.
- A zero run that reaches the last group is compressed (`Ip6ExampleTrailingRun`).
- Blinky (`Projects/Blinky/Blinky.c`) is an RTOS demo of two threads and is not part of this model.
