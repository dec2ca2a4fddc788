# Hardware-adaptation helpers: LED blink sequencer, battery report, IR encoder

A Dafny model of three pieces of the device hardware-adaptation layer:

- **The notification LED** (`hw/led/led.c`). A packed 32-bit colour has a type
  byte and red, green and blue intensities. The notification LED's channels
  are discovered by matching the marker file of LED nodes 1, 2 and 3.
  `notification_set_state` releases whatever is playing. It then turns the
  LED off (zero type byte), writes the colour once (manual mode), or builds
  a cyclic play list of on/off entries and walks it on a timer (blink mode).
  The state `{play list, nr_play, index, timer}` is the datatype `PlayInfo`.
  The timer callback is the transition function `Tick`. Each request or
  tick also returns the log of brightness writes it issued. What a channel
  "shows" is the last value the code tried to write to it, whether or not
  that `sys_set_int` succeeded.
- **The battery helpers** (`hw/battery/battery.c`):
  - the current sentinels of `adjust_current`;
  - line-end trimming;
  - the `fgets`/`strstr`/`atoi` scan that picks the power source from the
    charger-state file;
  - the early-return and field-assembly rules of
    `battery_get_current_state` and `uevent_delivered`;
  - the callback registration rule.
- **The IR transmitter** (`hw/ir/ir.c`, `ir_transmit`):
  - the argument checks;
  - the "set only when different" rules for the carrier frequency and the
    buffer length;
  - the little-endian packing of the pattern into the payload;
  - the mapping of the write's result to a return code.

Everything outside the code becomes an input:
- sysfs reads and writes;
- the marker files;
- the charger-state file;
- the uevent properties;
- the LIRC ioctls and write;
- whether a GLib timer could be armed.

Brightness writes take one result per channel for the whole call (`WriteResults`).

Files:
- `ctypes.dfy`: C integer conversions, errno values and helper read results.
- `cstring.dfy`: `strstr` and `atoi`.
- `led_colour.dfy`: the colour macros and the brightness fan-out.
- `led_discovery.dfy`: channel discovery.
- `led_sequencer.dfy`: the play list, release, tick and `set_state`.
- `battery.dfy`.
- `ir.dfy`.

C behaviour worth noting, all of it stated by the model:
- **Fan-out status.** `notification_set_brightness` keeps writing after a
  failure and reports the LAST failing write's result, not the first
  (hw/led/led.c:220-226; `LedColour.SetBrightness`,
  `LedColour.LastFailureOfTable`).
- **Failed write during a blink.** `notification_timer_expired` releases
  everything when a write fails instead of ticking on (hw/led/led.c:285-289,
  297-300; `LedSequencer.Tick`).
- **Red in manual mode.** `notification_set_state` tests the type byte of
  the colour before the mode (hw/led/led.c:387-388). The colour 0x00FF0000
  has type byte 0, so in manual mode it turns the LED off rather than
  lighting red (`LedSequencer.RedTypeZeroScenario`).
- **Unreachable -EINVAL.** `notification_insert_play_list`'s -EINVAL for
  colour 0 (hw/led/led.c:308-309) never fires: every caller passes a masked
  colour after testing it non-zero (hw/led/led.c:336-353;
  `LedSequencer.ChannelEntries`).

## Model

| member | source | states |
|---|---|---|
| CTypes.ToU32 | hw/ir/ir.c:78-79 | Converting an `int` to `unsigned int` keeps non-negative values and adds 2^32 to negative ones. |
| CTypes.ToI32 | hw/ir/ir.c:92-95 | Reading a 32-bit pattern back as a signed `int` is undone by the conversion to `unsigned int`. |
| CTypes.SignedRoundTrip | hw/ir/ir.c:92-95 | Every `int` survives the trip to `unsigned int` and back. |
| CTypes.LittleEndian | hw/ir/ir.c:92-95 | Assembling four bytes, least significant first, puts the first in the low byte and the last in the top byte. |
| CTypes.BytesRoundTrip | hw/ir/ir.c:92-95 | The four bytes `(u >> 0, 8, 16, 24) & 0xFF` reassemble to `u`. |
| CTypes.ByteAt | hw/ir/ir.c:92-95 | `(u >> 24) & 0xFF` needs no mask: the top byte is `u` shifted right by 24. |
| CString.Contains | hw/battery/battery.c:57 | `strstr` only finds a pattern no longer than the string; with ContainsAt and ContainsOccurs, found exactly when it occurs. |
| CString.ContainsAt | hw/battery/battery.c:57 | An occurrence at any position is found. |
| CString.ContainsOccurs | hw/battery/battery.c:57 | When `strstr` finds the pattern, it occurs at some position of the string. |
| CString.ContainsIffOccurs | hw/battery/battery.c:57 | `strstr` is non-NULL exactly when the pattern occurs somewhere in the string. |
| CString.MissingFirstChar | hw/battery/battery.c:57 | A pattern whose first character the string lacks is not found. |
| CString.DigitValue | hw/battery/battery.c:58 | A digit's value is below 10 and is 0 only for '0'. |
| CString.LeadingDigits | hw/battery/battery.c:58 | The digits `atoi` consumes: a prefix, all digits, and maximal. |
| CString.DecimalValue | hw/battery/battery.c:58 | A digit string's value is 0 exactly when every digit is '0'. |
| CString.SkipSpace | hw/battery/battery.c:58 | The suffix left after the leading white space: everything dropped is white space and the rest does not start with it. |
| CString.IsSpace | hw/battery/battery.c:58 | The white space `atoi` skips is the blank and the control characters from tab to carriage return. |
| CString.AtoiDigits | hw/battery/battery.c:58 | The digits `atoi` reads: all digits, a prefix of the text after the white space and an optional sign, and maximal. |
| CString.Atoi | hw/battery/battery.c:58 | `atoi` is 0 without digits. It is 0 exactly when every digit read is '0'. Its sign follows a leading '-'. |
| LedColour.Rank | hw/led/led.c:63-67 | The node table lists red, green and blue in that order. |
| LedColour.ColourBytes | hw/led/led.c:44-50 | The type byte (bits 24-31) and the red (16-23), green (8-15) and blue (0-7) bytes describe a colour completely. |
| LedColour.Name | hw/led/led.c:63-67 | Each node name is non-empty and fits in the 7 marker bytes the probe reads. |
| LedColour.TypeByte | hw/led/led.c:44 | GET_TYPE is byte 3 of the colour, and it is 0 exactly when the colour is below 2^24. |
| LedColour.Brightness | hw/led/led.c:48-50 | GET_*_BRT of red, green and blue is byte 2, 1 and 0 of the colour. |
| LedColour.SingleChannel | hw/led/led.c:45-50 | A colour with only one channel's byte set lights that channel at that byte, the others at 0, with type byte 0. |
| LedColour.Only | hw/led/led.c:45-47 | GET_*_ONLY is non-zero exactly when the channel's byte is. It keeps that byte and has type byte 0. |
| LedColour.OnlyLightsOne | hw/led/led.c:45-50 | A masked colour lights its own channel at its intensity and no other. |
| LedColour.LastWrittenAppend | hw/led/led.c:219 | A later write to a channel hides every earlier one. |
| LedColour.BoundIn | hw/led/led.c:207-209 | The fan-out visits exactly the channels that have a brightness path. |
| LedColour.LastFailure | hw/led/led.c:220-223 | The reference status, the last failing bound write, is negative. |
| LedColour.BoundInAscending | hw/led/led.c:207-209 | The visited channels keep the table's order and none repeats. |
| LedColour.LastFailureCons | hw/led/led.c:220-223 | A failure later in the table overrides an earlier one. |
| LedColour.FanOutStatus | hw/led/led.c:206-226 | The loop's status equals the last failing bound write, or the initial status when none fails. |
| LedColour.WritesShow | hw/led/led.c:207-219 | One write per bound channel leaves each bound channel showing its value and the others untouched. |
| LedColour.SetBrightness | hw/led/led.c:200-226 | Each bound channel is written its own byte in table order and unbound ones are skipped. The status is 0 iff every bound write succeeded; otherwise it is the result of a failing channel after which none failed. |
| LedColour.LastFailureOfTable | hw/led/led.c:220-226 | Over the whole table: no failure iff all bound writes succeed, else the reported code belongs to the last failing channel. |
| LedColour.WritesInTableOrder | hw/led/led.c:207-219 | The fan-out writes red before green before blue, each bound channel once. |
| LedColour.TurnOffShowsZero | hw/led/led.c:230-234 | Turning off makes 0 the last value written to every bound channel, whatever the writes return. |
| LedColour.WritesIgnoreResults | hw/led/led.c:207-224 | A failing write never stops the later ones: the writes do not depend on the results. |
| LedDiscovery.MarkerHead | hw/led/led.c:159 | The probe reads a prefix of the marker file of at most 7 bytes. |
| LedDiscovery.NameFitsHead | hw/led/led.c:159-168 | Each channel name fits in those 7 bytes, so the truncation hides no match, and an empty read matches nothing. |
| LedDiscovery.GetPath | hw/led/led.c:155-172 | An unreadable or empty marker changes nothing. Otherwise every channel whose name prefixes the marker is bound to this node and the rest keep their bindings. |
| LedDiscovery.OneChannelPerMarker | hw/led/led.c:167-172 | No name is a prefix of another, so one marker names at most one channel. |
| LedDiscovery.Bind | hw/led/led.c:167-172 | A channel whose name prefixes the marker is bound to the node; without a match the channel keeps its binding, and other channels are untouched. |
| LedDiscovery.InitLed | hw/led/led.c:179-181 | After probing nodes 1-3 a channel is bound iff it was before or some node names it. It is bound to the last naming node, and otherwise keeps its old binding. |
| LedDiscovery.ProbeInOrder | hw/led/led.c:179-181 | The three probes in sequence have the binding rule of InitLed. |
| LedDiscovery.FreshProbe | hw/led/led.c:179-181 | From scratch every binding is one of nodes 1, 2, 3, and unreadable markers bind nothing. |
| LedSequencer.Previous | hw/led/led.c:291-293 | The entry before the index, cyclically, is the one whose step leads to the index. |
| LedSequencer.Interval | hw/led/led.c:277 | The `int` time handed to `g_timeout_add` as `guint` keeps non-negative times and turns negative ones into intervals of at least 2^31 ms. |
| LedSequencer.AppendCovers | hw/led/led.c:385-390 | Writes that reach every bound channel decide what it shows, whatever came before. |
| LedSequencer.AppendShows | hw/led/led.c:385-390 | A colour shown by later writes is still shown after earlier writes. |
| LedSequencer.AppendOnlyBound | hw/led/led.c:385-390 | Joining two logs of bound-channel writes writes only bound channels. |
| LedSequencer.Release | hw/led/led.c:243-257 | Release ends with no list, count 0, index 0 and no timer, with 0 the last value written to every bound channel and only bound channels written. |
| LedSequencer.Stop | hw/led/led.c:297-300 | A stopped tick releases everything, ends with a write of 0 to every bound channel and reports REMOVE. |
| LedSequencer.Tick | hw/led/led.c:260-301 | A tick continues iff the index is inside the list, the timer was armed and every bound write succeeded. It then shows the entry's colour, keeps the list and arms a timer for the entry's time; otherwise everything is released. |
| LedSequencer.TickKeepsRunning | hw/led/led.c:291-295 | A successful tick of a running blink keeps it running with index (index + 1) mod nr_play. A failed one leaves it idle. |
| LedSequencer.Lit | hw/led/led.c:336-353 | The channels that add entries are exactly those with a non-zero byte. |
| LedSequencer.LitAscending | hw/led/led.c:336-353 | The lit channels keep the R, G, B order and none repeats. |
| LedSequencer.ChannelEntries | hw/led/led.c:304-328 | A channel adds entries exactly when its byte is non-zero: an on entry with its non-zero masked colour for duty_on, then an off entry (0, duty_off). |
| LedSequencer.PlayListOver | hw/led/led.c:336-353 | The list holds two entries per lit channel. |
| LedSequencer.Pairs | hw/led/led.c:319-325 | Each insertion appends exactly two entries. |
| LedSequencer.PlayListIsPairs | hw/led/led.c:336-353 | Skipping dark channels leaves one on/off pair per lit channel, in order. |
| LedSequencer.PairEntry | hw/led/led.c:319-325 | Pair k is the on entry for the k-th channel followed by its off entry. |
| LedSequencer.PlayListEntries | hw/led/led.c:336-353 | Entry 2k lights the k-th lit channel for duty_on and entry 2k+1 shows 0 for duty_off. |
| LedSequencer.BlinkPlayList | hw/led/led.c:331-356 | nr_play is twice the number of lit channels (at most 6), which come in R, G, B order; entries alternate on and off as above. |
| LedSequencer.BlinkEntriesLight | hw/led/led.c:336-353 | Every on entry lights exactly one channel at its intensity and every off entry lights none. |
| LedSequencer.BlinkIgnoresType | hw/led/led.c:336-353 | The play list depends on the three intensity bytes only, not on the type byte. |
| LedSequencer.BlinkEntryLights | hw/led/led.c:336-353 | What one entry of the list lights: its channel alone when on, nothing when off. |
| LedSequencer.SetBrightnessBlink | hw/led/led.c:331-359 | Blink setup returns 0 regardless. It keeps running iff a channel is lit, the timer was armed and every write succeeded: index 1, timer for duty_on, first entry shown. Otherwise it is idle and 0 was the last value written to every bound channel. |
| LedSequencer.TurnOn | hw/led/led.c:363-369 | Manual mode writes the colour once, with nothing playing, and returns 0 iff every write succeeded, else the result of a failing channel after which none failed. Blink mode returns 0. |
| LedSequencer.SetState | hw/led/led.c:371-391 | A null request gives -EINVAL and an unsupported type -ENOTSUP, both with nothing changed. Otherwise the release's writes come first; a zero type byte turns every channel off and returns 0 or the last failing write's result; any other request is turned on. |
| LedSequencer.SetStateManual | hw/led/led.c:385-390 | A manual request with a non-zero type byte shows its colour on every bound channel, leaves nothing playing, and returns 0 iff all writes succeeded, else the last failing write's result. |
| LedSequencer.SetStateBlink | hw/led/led.c:385-390 | A blink request with a non-zero type byte returns 0 and runs iff a channel is lit, the timer is armed and the writes succeed. |
| LedSequencer.TickKeepsStarting | hw/led/led.c:355-358 | The first tick of a fresh list starts a blink at index 1 or leaves nothing running. |
| LedSequencer.SetStateForgetsPast | hw/led/led.c:385 | An accepted request's outcome does not depend on what was playing before. |
| LedSequencer.SetStateTwice | hw/led/led.c:371-391 | The same request twice ends in the same state, with the same channel values, as once. |
| LedSequencer.TickStep | hw/led/led.c:283-295 | One successful tick keeps the list, keeps running and steps the index, wrapping at nr_play. |
| LedSequencer.TicksKeepList | hw/led/led.c:291-295 | Any number of successful ticks keep the blink running on the same list. |
| LedSequencer.Cycle | hw/led/led.c:291-293 | Cyclic stepping stays inside the list. |
| LedSequencer.CycleIsMod | hw/led/led.c:291-293 | k cyclic steps from i land on (i + k) mod n. |
| LedSequencer.CycleFullTurn | hw/led/led.c:291-293 | n cyclic steps come back to the start. |
| LedSequencer.TicksCycle | hw/led/led.c:271-295 | k successful ticks move the index k cyclic steps. |
| LedSequencer.TicksAdvance | hw/led/led.c:271-295 | After k successful ticks the index is (index + k) mod nr_play. |
| LedSequencer.CycleReturns | hw/led/led.c:271-295 | After nr_play successful ticks the whole state is back where it started, so the writes repeat. |
| LedSequencer.RedTypeZeroScenario | hw/led/led.c:387-388 | 0x00FF0000 in manual mode has red byte 255 but type 0, so every bound channel ends at 0 and nothing plays. |
| LedSequencer.GreenBlinkScenario | hw/led/led.c:336-356 | 0xFF00FF00 with 500/200 ms gives the list [(0xFF00, 500), (0, 200)]. |
| Battery.AdjustCurrent | hw/battery/battery.c:79-92 | Only the currents change. Both 0 become 1 when charging and -1 otherwise; a non-zero current leaves the record alone. |
| Battery.AdjustSettles | hw/battery/battery.c:83-91 | After adjustment the currents are never both 0, and adjusting again changes nothing. |
| Battery.RemoveNotString | hw/battery/battery.c:94-106 | The trimmed string is a prefix without CR or LF, cut exactly at the first one. |
| Battery.RemoveNotStringKeeps | hw/battery/battery.c:94-106 | A string without line ends is unchanged. |
| Battery.RemoveNotStringIdempotent | hw/battery/battery.c:94-106 | Trimming twice equals trimming once. |
| Battery.LineLength | hw/battery/battery.c:56 | One `fgets` takes up to and including the first line feed, at most 255 characters, and at least one when any are left. |
| Battery.Lines | hw/battery/battery.c:43-56 | Every buffer the loop sees is non-empty and at most 255 characters. |
| Battery.LinesCover | hw/battery/battery.c:56 | The buffers, joined, are the whole file. |
| Battery.LinesAreReads | hw/battery/battery.c:56 | Each buffer is exactly what one `fgets` call takes from the text the earlier buffers left. |
| Battery.LineVerdict | hw/battery/battery.c:57-71 | A buffer picks USB iff it has "USB=" and a non-zero value at offset 4. It picks AC iff it lacks "USB=" and has "TA=" with a non-zero value at offset 3. |
| Battery.ScanLines | hw/battery/battery.c:54-72 | The result is NONE iff no buffer decides, and otherwise the verdict of the first deciding buffer. |
| Battery.ScanStops | hw/battery/battery.c:56-72 | Nothing after the first deciding buffer matters. |
| Battery.GetPowerSource | hw/battery/battery.c:39-77 | -EINVAL without an out-pointer and -errno when the file cannot be opened. Otherwise the scan's source. |
| Battery.LineLengthAt | hw/battery/battery.c:56 | A buffer ending at its first line feed is read whole. |
| Battery.UsbZeroLine | hw/battery/battery.c:57-60 | "USB=0" decides nothing. |
| Battery.TaOneLine | hw/battery/battery.c:65-70 | "TA=1" picks AC. |
| Battery.TaLineScenario | hw/battery/battery.c:54-72 | "USB=0" then "TA=1" reports AC. |
| Battery.AtoiOfNonNumber | hw/battery/battery.c:58 | `atoi` of text starting with a non-number character is 0. |
| Battery.AtoiOfDigit | hw/battery/battery.c:58 | `atoi` of one digit before a non-digit is that digit. |
| Battery.UsbShadowsTa | hw/battery/battery.c:57-60 | In "TA=1USB=", "USB=" with value 0 shadows a non-zero "TA=" value, so the buffer decides nothing. |
| Battery.RegisterChangedEvent | hw/battery/battery.c:188-210 | A failed start returns its code with nothing changed. Otherwise the handler's result is returned and the callback stored only when none is set. |
| Battery.UnregisterChangedEvent | hw/battery/battery.c:212-219 | Unregistering clears callback and data. |
| Battery.RegisterKeepsFirst | hw/battery/battery.c:203-217 | A second registration keeps the first callback and data; after unregistering a new one takes effect. |
| Battery.ChargerStatus | hw/battery/battery.c:48-52 | The power-source read fails exactly when the charger file cannot be opened, with its -errno. |
| Battery.ReadCode | hw/battery/battery.c:236-312 | Every read's status is 0 or negative. |
| Battery.ReadCodes | hw/battery/battery.c:236-312 | Nine statuses, in read order, none positive. |
| Battery.SysfsReport | hw/battery/battery.c:234-312 | The report's power source is the one the charger scan picked. |
| Battery.GetCurrentState | hw/battery/battery.c:221-319 | No callback gives -EINVAL. The callback runs iff every read succeeds, exactly when 0 is returned, and receives the adjusted report with the caller's data. |
| Battery.CurrentStateReport | hw/battery/battery.c:234-316 | The delivered record has the device id, trimmed status and health, the scanned source and the reads. Averages equal the instantaneous values, with the sentinels applied. |
| Battery.AllReadCodes | hw/battery/battery.c:236-312 | Every read succeeded iff every status is 0. |
| Battery.FailedRead | hw/battery/battery.c:236-312 | When a read fails, there is a first failing read in read order. |
| Battery.CurrentStateFirstFailure | hw/battery/battery.c:236-318 | The result is 0 iff all statuses are 0, and otherwise the status of the first failing read. |
| Battery.FailedReadReturned | hw/battery/battery.c:236-312 | A failing call returns exactly the first failing read's status. |
| Battery.UeventDelivered | hw/battery/battery.c:108-181 | The callback runs iff it is registered, all ten properties exist and the charger file opens. It then gets strings as they are, numbers through `atoi`, the current copied into its average, the voltage average from its own property, and the sentinels. |
| Battery.VoltageAverageDiffers | hw/battery/battery.c:163-166 | Unlike the sysfs path, the uevent path can deliver a voltage average different from voltage_now. |
| Ir.PayloadLength | hw/ir/ir.c:88 | The payload length `(size - 1) * 4` is a multiple of 4 below 2^31. |
| Ir.LeBytes | hw/ir/ir.c:92-95 | The four bytes written for a word reassemble to it. |
| Ir.Unpack | hw/ir/ir.c:91-97 | Reading a payload back yields one word per four bytes. |
| Ir.PackedBytes | hw/ir/ir.c:91-97 | Byte 4(i-1)+k of the payload is `((unsigned)pattern[i] >> 8k) & 0xFF`. |
| Ir.Pack | hw/ir/ir.c:88-97 | The payload has `(size - 1) * 4` bytes: each group is element i + 1 as unsigned little-endian, element 0 never appears, and unpacking gives back elements 1..size-1. |
| Ir.UnpackPacked | hw/ir/ir.c:91-97 | Unpacking a packed payload gives the unsigned elements. |
| Ir.PayloadRoundTrip | hw/ir/ir.c:91-97 | Read back as signed words, the payload is exactly `pattern[1..size]`. |
| Ir.Transmit | hw/ir/ir.c:55-118 | size <= 1 or NULL gives -EINVAL before the device is touched; an unopenable device -ENODEV. The frequency is set only when it differs from what was read (a failed set returns -errno and writes nothing). The length is set only when it differs. The write maps to -errno, -EINTR when short, or 0. |

## Left out

- File, sysfs, uevent and LIRC I/O: the results of `sys_get_int`, `sys_get_str`, `sys_set_int`, `fopen`/`fread`/`fgets`, `udev_device_get_property_value`, `open`, `ioctl` and `write` are inputs. Logging is dropped.
- GLib timers and lists. `Tick` is an explicit transition, and `timerOk` says whether `g_timeout_add` succeeded. The timer handle is modelled as the interval it was armed for.
- Whether a failing `sys_set_int` changed the brightness is not modelled: `LastWritten` and `Shows` count attempted writes, so a channel whose writes all fail still "shows" the last value the code tried to write.
- Brightness writes take one result per channel for a whole request or tick, so a channel cannot fail in the release and succeed in the turn-on of the same call. The release's status is ignored by the code anyway.
- Memory management: the `calloc`/ENOMEM paths of `notification_insert_play_list` (hw/led/led.c:310-317), the unchecked `calloc` of `ir_transmit` (hw/ir/ir.c:90), and `strdup`/`free`.
- `camera_back_set_state` and `touch_key_set_state` (hw/led/led.c:82-144): floating-point brightness scaling against a cached sysfs maximum.
- `led_open`, `led_close`, `ir_open`, `battery_open` and the module structures: device dispatch boilerplate.
- `hw/display/display.c`, `hw/board/board.c` and `hw/usb_client/usb_client.c`: thin sysfs wrappers and a descriptor.
- The values of LED_TYPE_MANUAL and LED_TYPE_BLINK: `hw/led.h` is not part of this model. Any other value is `Unsupported(code)`.
- BATTERY_HARDWARE_DEVICE_ID: its value is not part of this model, so it is the parameter `deviceId`.
- The POWER_SOURCE_* strings are a datatype. `remove_not_string` on the power source (hw/battery/battery.c:259) is the identity on them and is not applied.
- The 32-byte buffers of `sys_get_str` (hw/battery/battery.c:227-228): the helper in `hw/shared` is not part of this model, so a read string arrives as the helper delivered it.
- NUL characters inside file contents or property values: strings are modelled without a terminator.
- Character encoding: file contents, marker files and property values are byte sequences, and the model reads them as `string` with one `char` per byte. The limits of 255 characters per `fgets` and 7 per `fread` therefore count bytes; multi-byte text would need to be given byte by byte.
- `adjust_current`'s NULL check (hw/battery/battery.c:81-82): both callers pass a record.
- CString.Atoi: does not model overflow of `int`, which is undefined behaviour in C; values are unbounded.
- Ir.Transmit: requires `size <= 0x2000_0000`, because a larger size overflows `(size - 1) * 4` in `int` arithmetic, which is undefined behaviour. It also requires that a non-NULL pattern holds at least `size` elements, as the C caller must ensure.
- Ir.Transmit: uses the errno of the failing ioctl or write for `-errno`, ignoring any change `close` might make to errno (hw/ir/ir.c:83-84, 108-109).
