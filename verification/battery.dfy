/** The battery helpers of hw/battery/battery.c: the current sentinels,
    line-end trimming, the charger-state scan that picks the power source,
    and the assembly of a battery report from sysfs reads or from a
    POWER_SUPPLY uevent. Every file and property read is an input. */
module Battery {
  import opened CTypes
  import opened CString

  /** POWER_SOURCE_NONE, POWER_SOURCE_USB and POWER_SOURCE_AC. */
  datatype PowerSource = NoSource | Usb | Ac

  /** struct battery_info. */
  datatype BatteryInfo = BatteryInfo(
    name: string,
    status: string,
    health: string,
    powerSource: PowerSource,
    online: int,
    present: int,
    capacity: int,
    currentNow: int,
    currentAverage: int,
    voltageNow: int,
    voltageAverage: int,
    temperature: int)

  /** The status `adjust_current` treats as charging. `strncmp` over 9 bytes
      compares the terminating NUL too, so only this exact string matches. */
  const Charging: string := "Charging"

  /** adjust_current: when both currents read 0 they are replaced by a
      sentinel, 1 while charging and -1 otherwise; a record with a
      non-zero current is left alone. */
  function AdjustCurrent(info: BatteryInfo): (r: BatteryInfo)
    ensures r.(currentNow := info.currentNow, currentAverage := info.currentAverage) == info
    ensures info.currentNow != 0 || info.currentAverage != 0 ==> r == info
    ensures info.currentNow == 0 && info.currentAverage == 0 ==>
              r.currentNow == r.currentAverage && (r.currentNow == 1 <==> info.status == Charging)
              && (r.currentNow == -1 <==> info.status != Charging)
  {
    if info.currentNow == 0 && info.currentAverage == 0 then
      if info.status != Charging then info.(currentNow := -1, currentAverage := -1)
      else info.(currentNow := 1, currentAverage := 1)
    else info
  }

  /** After adjustment the currents are never both 0, and adjusting again changes nothing. */
  lemma AdjustSettles(info: BatteryInfo)
    ensures var r := AdjustCurrent(info);
            !(r.currentNow == 0 && r.currentAverage == 0) && AdjustCurrent(r) == r
  {
  }

  /** remove_not_string: the string cut at its first carriage return or line feed. */
  function RemoveNotString(s: string): (r: string)
    ensures r <= s
    ensures forall i :: 0 <= i < |r| ==> !IsLineEnd(r[i])
    ensures |r| == |s| || IsLineEnd(s[|r|])
  {
    if s == [] || IsLineEnd(s[0]) then [] else [s[0]] + RemoveNotString(s[1..])
  }

  /** A string without line ends is left as it is. */
  lemma RemoveNotStringKeeps(s: string)
    requires forall i :: 0 <= i < |s| ==> !IsLineEnd(s[i])
    ensures RemoveNotString(s) == s
  {
  }

  /** Trimming twice trims no more than trimming once. */
  lemma RemoveNotStringIdempotent(s: string)
    ensures RemoveNotString(RemoveNotString(s)) == RemoveNotString(s)
  {
    RemoveNotStringKeeps(RemoveNotString(s));
  }

  /** `fgets(buf, 256, fp)` stores at most 255 characters. */
  const LineRoom: nat := 255

  /** How many characters one `fgets` call takes from the front of `s`, with
      room for `room` of them: up to and including the first line feed, and
      no more than `room` or than what is left. */
  function LineLength(s: string, room: nat): (n: nat)
    ensures n <= |s| && n <= room
    ensures s != [] && room > 0 ==> n > 0
    ensures forall i :: 0 <= i < n - 1 ==> s[i] != '\n'
    ensures n == |s| || n == room || (n > 0 && s[n - 1] == '\n')
  {
    if s == [] || room == 0 then 0
    else if s[0] == '\n' then 1
    else 1 + LineLength(s[1..], room - 1)
  }

  /** The successive buffers the `fgets` loop of `get_power_source` sees over
      the charger-state file, until end of file. */
  function Lines(content: string): (r: seq<string>)
    ensures forall i :: 0 <= i < |r| ==> 0 < |r[i]| <= LineRoom
    decreases |content|
  {
    if content == [] then []
    else
      var n := LineLength(content, LineRoom);
      [content[..n]] + Lines(content[n..])
  }

  /** The lines put back together. */
  function Concat(ls: seq<string>): string
  {
    if ls == [] then [] else ls[0] + Concat(ls[1..])
  }

  /** The loop reads the whole file: its buffers, joined, are the content. */
  lemma {:induction false} LinesCover(content: string)
    ensures Concat(Lines(content)) == content
    decreases |content|
  {
    if content != [] {
      var n := LineLength(content, LineRoom);
      LinesCover(content[n..]);
      assert Lines(content)[1..] == Lines(content[n..]);
      assert content[..n] + content[n..] == content;
    }
  }

  /** `buf` is what one `fgets` call takes from the front of `rest`. */
  predicate IsRead(buf: string, rest: string)
  {
    buf == rest[..LineLength(rest, LineRoom)]
  }

  /** Each buffer of `r` is what one `fgets` call reads from the text not
      yet consumed: buffer `i` is the front part one call takes of the
      buffers from `i` on, joined. */
  predicate AllReads(r: seq<string>)
  {
    forall i :: 0 <= i < |r| ==> IsRead(r[i], Concat(r[i..]))
  }

  /** A read in front of a run of reads is a run of reads. */
  lemma ReadsCons(buf: string, rest: seq<string>)
    requires IsRead(buf, buf + Concat(rest)) && AllReads(rest)
    ensures AllReads([buf] + rest)
  {
    var r := [buf] + rest;
    forall i | 0 <= i < |r| ensures IsRead(r[i], Concat(r[i..])) {
      if i == 0 {
        assert r[0..] == r && r[1..] == rest;
      } else {
        assert r[i..] == rest[i - 1..];
      }
    }
  }

  /** The buffers of the loop are successive `fgets` reads: by LinesCover
      their join is the file, so buffer 0 is the first read of the file and
      every later buffer the first read of what is left after it. */
  lemma {:induction false} LinesAreReads(content: string)
    ensures AllReads(Lines(content))
    decreases |content|
  {
    if content != [] {
      var n := LineLength(content, LineRoom);
      var rest := Lines(content[n..]);
      LinesAreReads(content[n..]);
      LinesCover(content[n..]);
      assert content[..n] + content[n..] == content;
      ReadsCons(content[..n], rest);
      assert Lines(content) == [content[..n]] + rest;
    }
  }

  /** What one buffer of the scan decides: a "USB=" line whose value, read
      at offset 4 of the buffer, is non-zero picks USB; failing that a "TA="
      line whose value at offset 3 is non-zero picks AC. A "USB=" line whose
      value is 0 is passed over without looking for "TA=". None means the
      scan goes on. */
  function LineVerdict(line: string): (v: Option<PowerSource>)
    ensures v != Some(NoSource)
    ensures v == Some(Usb) <==> Contains(line, "USB=") && Atoi(line[4..]) != 0
    ensures v == Some(Ac) <==> !Contains(line, "USB=") && Contains(line, "TA=") && Atoi(line[3..]) != 0
  {
    if Contains(line, "USB=") then
      if Atoi(line[4..]) == 0 then None else Some(Usb)
    else if Contains(line, "TA=") then
      if Atoi(line[3..]) == 0 then None else Some(Ac)
    else None
  }

  /** Line `i` is the first buffer that decides, and it decides `src`. */
  predicate DecidesFirst(lines: seq<string>, i: nat, src: PowerSource)
  {
    i < |lines| && LineVerdict(lines[i]) == Some(src)
    && forall j :: 0 <= j < i ==> LineVerdict(lines[j]).None?
  }

  /** The `fgets` loop: the source the first deciding buffer picks, or
      POWER_SOURCE_NONE when no buffer decides. */
  function ScanLines(lines: seq<string>): (src: PowerSource)
    ensures src == NoSource <==> forall i :: 0 <= i < |lines| ==> LineVerdict(lines[i]).None?
    ensures src != NoSource ==> exists i: nat :: DecidesFirst(lines, i, src)
  {
    if lines == [] then NoSource
    else match LineVerdict(lines[0])
      case Some(src) =>
        assert DecidesFirst(lines, 0, src);
        src
      case None =>
        var src := ScanLines(lines[1..]);
        assert src != NoSource ==> exists i: nat :: DecidesFirst(lines, i, src) by {
          if src != NoSource {
            var i: nat :| DecidesFirst(lines[1..], i, src);
            assert DecidesFirst(lines, i + 1, src);
          }
        }
        src
  }

  /** The scan stops at the first deciding buffer: what follows it never matters. */
  lemma {:induction false} ScanStops(a: seq<string>, b: seq<string>)
    ensures ScanLines(a + b) == if ScanLines(a) != NoSource then ScanLines(a) else ScanLines(b)
    decreases |a|
  {
    if a == [] {
      assert a + b == b;
    } else {
      assert (a + b)[0] == a[0];
      assert (a + b)[1..] == a[1..] + b;
      ScanStops(a[1..], b);
    }
  }

  /** fopen of the charger-state file: its content, or the errno of the failure. */
  datatype FileOpen = Opened(content: string) | OpenFailed(errno: Errno)

  /** get_power_source: -EINVAL without an out-pointer, -errno when the
      charger-state file cannot be opened, and otherwise the source the scan
      of its lines picks. */
  function GetPowerSource(hasOut: bool, charger: FileOpen): (r: Read<PowerSource>)
    ensures !hasOut ==> r == Failed(-EINVAL)
    ensures hasOut && charger.OpenFailed? ==> r == Failed(-(charger.errno as int))
    ensures hasOut && charger.Opened? ==> r.Got?
    ensures r.Got? ==> charger.Opened? && r.value == ScanLines(Lines(charger.content))
  {
    if !hasOut then Failed(-EINVAL)
    else match charger
      case OpenFailed(e) => Failed(-(e as int))
      case Opened(content) => Got(ScanLines(Lines(content)))
  }

  /** A buffer that ends at its first line feed is taken whole by one `fgets`. */
  lemma {:induction false} LineLengthAt(s: string, room: nat, n: nat)
    requires 0 < n <= |s| && n <= room && s[n - 1] == '\n'
    requires forall i :: 0 <= i < n - 1 ==> s[i] != '\n'
    ensures LineLength(s, room) == n
    decreases n
  {
    if n > 1 {
      LineLengthAt(s[1..], room - 1, n - 1);
    }
  }

  /** A "USB=0" line decides nothing. */
  lemma UsbZeroLine(line: string)
    requires line == "USB=0\n"
    ensures LineVerdict(line) == None
  {
    assert line[..4] == "USB=";
    ContainsAt(line, "USB=", 0);
    AtoiOfDigit(line[4..]);
  }

  /** A "TA=1" line picks AC. */
  lemma TaOneLine(line: string)
    requires line == "TA=1\n"
    ensures LineVerdict(line) == Some(Ac)
  {
    assert line[..3] == "TA=";
    ContainsAt(line, "TA=", 0);
    MissingFirstChar(line, "USB=");
    AtoiOfDigit(line[3..]);
  }

  /** A charger state with USB=0 and then TA=1 on separate lines reports AC. */
  lemma TaLineScenario(content: string)
    requires content == "USB=0\nTA=1\n"
    ensures GetPowerSource(true, Opened(content)) == Got(Ac)
  {
    var usb, ta := content[..6], content[6..];
    assert usb == "USB=0\n" && ta == "TA=1\n";
    LineLengthAt(content, LineRoom, 6);
    LineLengthAt(ta, LineRoom, 5);
    assert ta[..5] == ta && ta[5..] == [];
    assert Lines(ta) == [ta];
    assert Lines(content) == [usb, ta];
    UsbZeroLine(usb);
    TaOneLine(ta);
    assert [usb, ta][1..] == [ta];
    assert ScanLines([ta]) == Ac;
  }

  /** `atoi` of text that starts with neither white space, a sign nor a digit is 0. */
  lemma AtoiOfNonNumber(text: string)
    requires text != [] && !IsSpace(text[0]) && !IsDigit(text[0]) && text[0] != '-' && text[0] != '+'
    ensures Atoi(text) == 0
  {
    assert SkipSpace(text) == text;
    assert LeadingDigits(text) == [];
  }

  /** `atoi` of a single digit followed by a non-digit is that digit. */
  lemma AtoiOfDigit(text: string)
    requires |text| >= 2 && IsDigit(text[0]) && !IsDigit(text[1])
    ensures Atoi(text) == DigitValue(text[0])
  {
    assert SkipSpace(text) == text;
    assert LeadingDigits(text[1..]) == [];
    assert AtoiDigits(text) == [text[0]];
    assert DecimalValue([text[0]]) == DigitValue(text[0]);
  }

  /** A buffer holding "USB=" with a zero value is passed over even when its
      "TA=" value at offset 3 is non-zero: "TA=1USB=" picks nothing. */
  lemma UsbShadowsTa(line: string)
    requires line == "TA=1USB="
    ensures Contains(line, "TA=") && Atoi(line[3..]) == 1
    ensures LineVerdict(line) == None
  {
    ShadowedTaField(line);
    ShadowingUsbField(line);
  }

  // The four lemmas below each prove one fact about the buffer of
  // UsbShadowsTa; kept apart so that each proof stays small.

  lemma ShadowedTaField(line: string)
    requires line == "TA=1USB="
    ensures Contains(line, "TA=") && Atoi(line[3..]) == 1
  {
    assert line[..3] == "TA=";
    ContainsAt(line, "TA=", 0);
    var rest := line[3..];
    assert rest == "1USB=";
    assert rest[0] == '1' && rest[1] == 'U';
    AtoiOfDigit(rest);
  }

  lemma ShadowingUsbField(line: string)
    requires line == "TA=1USB="
    ensures Contains(line, "USB=") && Atoi(line[4..]) == 0
  {
    ShadowingUsbFound(line);
    ShadowingUsbValue(line);
  }

  lemma ShadowingUsbFound(line: string)
    requires line == "TA=1USB="
    ensures Contains(line, "USB=")
  {
    assert line[4..8] == line[4..];
    ContainsAt(line, "USB=", 4);
  }

  lemma ShadowingUsbValue(line: string)
    requires line == "TA=1USB="
    ensures Atoi(line[4..]) == 0
  {
    var tail := line[4..];
    assert tail[0] == 'U';
    AtoiOfNonNumber(tail);
  }

  /** An opaque handle standing for a BatteryUpdated function pointer. */
  type Callback = nat

  /** udata: the registered callback and its user data (NULL is None and 0). */
  datatype Registration = Registration(cb: Option<Callback>, data: int)

  const Unregistered: Registration := Registration(None, 0)

  /** What a call hands its callback. */
  datatype Delivery = Delivery(cb: Callback, info: BatteryInfo, data: int)

  /** battery_register_changed_event. `startRet` and `controlRet` are the
      results of starting the uevent control and registering the handler.
      A failed start is returned at once and changes nothing; otherwise the
      callback and data are stored only when none is registered yet, and the
      handler registration's result is returned whatever it was. */
  function RegisterChangedEvent(reg: Registration, cb: Option<Callback>, data: int, startRet: int, controlRet: int): (r: (Registration, int))
    ensures startRet < 0 ==> r == (reg, startRet)
    ensures startRet >= 0 ==> r.1 == controlRet
    ensures startRet >= 0 && reg.cb.None? ==> r.0 == Registration(cb, data)
    ensures reg.cb.Some? ==> r.0 == reg
  {
    if startRet < 0 then (reg, startRet)
    else if reg.cb.None? then (Registration(cb, data), controlRet)
    else (reg, controlRet)
  }

  /** battery_unregister_changed_event: the callback and data are cleared. */
  function UnregisterChangedEvent(reg: Registration): (r: Registration)
    ensures r.cb.None? && r.data == 0
  {
    Unregistered
  }

  /** Registering a second callback keeps the first one and its data;
      after unregistering, a new registration takes effect. */
  lemma RegisterKeepsFirst(reg: Registration, cb1: Callback, d1: int, cb2: Callback, d2: int, c1: int, c2: int)
    requires reg.cb.None?
    ensures var first := RegisterChangedEvent(reg, Some(cb1), d1, 0, c1).0;
            RegisterChangedEvent(first, Some(cb2), d2, 0, c2).0 == Registration(Some(cb1), d1)
            && RegisterChangedEvent(UnregisterChangedEvent(first), Some(cb2), d2, 0, c2).0 == Registration(Some(cb2), d2)
  {
  }

  /** The status the helper reads report, in the order
      battery_get_current_state makes them: status, health, power source,
      online, present, capacity, current_now, voltage_now, temp. */
  datatype SysfsReads = SysfsReads(
    status: Read<string>,
    health: Read<string>,
    charger: FileOpen,
    online: Read<int>,
    present: Read<int>,
    capacity: Read<int>,
    currentNow: Read<int>,
    voltageNow: Read<int>,
    temp: Read<int>)

  /** What a report-producing call returned and whether its callback ran. */
  datatype Outcome = Outcome(ret: int, delivered: Option<Delivery>)

  /** Position `k` holds the first failing status of `codes`. */
  predicate FirstFailsAt(codes: seq<int>, k: nat)
  {
    k < |codes| && codes[k] != 0 && forall j :: 0 <= j < k ==> codes[j] == 0
  }

  /** The status get_power_source reports for an existing out-pointer: it
      fails exactly when the charger-state file cannot be opened. */
  function ChargerStatus(charger: FileOpen): (s: int)
    ensures s == GetPowerSource(true, charger).Status()
  {
    match charger
    case Opened(_) => 0
    case OpenFailed(e) => -(e as int)
  }

  /** The status of read `i`, in the order the reads are made: status,
      health, power source, online, present, capacity, current_now,
      voltage_now, temp. */
  function ReadCode(rd: SysfsReads, i: nat): (c: int)
    requires i < 9
    ensures c <= 0
  {
    match i
    case 0 => rd.status.Status()
    case 1 => rd.health.Status()
    case 2 => ChargerStatus(rd.charger)
    case 3 => rd.online.Status()
    case 4 => rd.present.Status()
    case 5 => rd.capacity.Status()
    case 6 => rd.currentNow.Status()
    case 7 => rd.voltageNow.Status()
    case _ => rd.temp.Status()
  }

  /** The status of each read, in the order they are made. */
  function ReadCodes(rd: SysfsReads): (codes: seq<int>)
    ensures |codes| == 9
    ensures forall i :: 0 <= i < |codes| ==> codes[i] <= 0
  {
    seq(9, i requires 0 <= i < 9 => ReadCode(rd, i))
  }

  /** Every read of the sysfs path succeeded. */
  predicate AllRead(rd: SysfsReads)
  {
    && rd.status.Got? && rd.health.Got? && rd.charger.Opened?
    && rd.online.Got? && rd.present.Got? && rd.capacity.Got?
    && rd.currentNow.Got? && rd.voltageNow.Got? && rd.temp.Got?
  }

  /** The record battery_get_current_state fills from successful reads,
      before the current sentinels: status and health cut at their first
      line end, and both averages copied from the instantaneous values. */
  function SysfsReport(deviceId: string, rd: SysfsReads): (info: BatteryInfo)
    requires AllRead(rd)
    ensures GetPowerSource(true, rd.charger) == Got(info.powerSource)
  {
    BatteryInfo(deviceId, RemoveNotString(rd.status.value), RemoveNotString(rd.health.value),
                GetPowerSource(true, rd.charger).value, rd.online.value, rd.present.value, rd.capacity.value,
                rd.currentNow.value, rd.currentNow.value,
                rd.voltageNow.value, rd.voltageNow.value, rd.temp.value)
  }

  /** battery_get_current_state: -EINVAL without a callback; otherwise the
      reads are made in order and the first failure is returned at once,
      without calling the callback. When every read succeeds the callback
      receives the report with the current sentinels applied, and the call
      returns 0. */
  function GetCurrentState(cb: Option<Callback>, data: int, deviceId: string, rd: SysfsReads): (o: Outcome)
    ensures cb.None? ==> o == Outcome(-EINVAL, None)
    ensures o.ret <= 0
    ensures o.delivered.Some? <==> o.ret == 0
    ensures o.delivered.Some? <==> cb.Some? && AllRead(rd)
    ensures o.delivered.Some? ==> o.delivered.value == Delivery(cb.value, AdjustCurrent(SysfsReport(deviceId, rd)), data)
  {
    if cb.None? then Outcome(-EINVAL, None)
    else if rd.status.Failed? then Outcome(rd.status.code, None)
    else if rd.health.Failed? then Outcome(rd.health.code, None)
    else
      var src := GetPowerSource(true, rd.charger);
      if src.Failed? then Outcome(src.code, None)
      else if rd.online.Failed? then Outcome(rd.online.code, None)
      else if rd.present.Failed? then Outcome(rd.present.code, None)
      else if rd.capacity.Failed? then Outcome(rd.capacity.code, None)
      else if rd.currentNow.Failed? then Outcome(rd.currentNow.code, None)
      else if rd.voltageNow.Failed? then Outcome(rd.voltageNow.code, None)
      else if rd.temp.Failed? then Outcome(rd.temp.code, None)
      else Outcome(0, Some(Delivery(cb.value, AdjustCurrent(SysfsReport(deviceId, rd)), data)))
  }

  /** What the callback of a successful battery_get_current_state receives,
      field by field: the device id as name, status and health trimmed, the
      power source the charger scan picked, the numeric reads as they are,
      voltage_now and current_now doubling as their averages, and a zero
      current replaced by the charging sentinel. */
  lemma CurrentStateReport(cb: Callback, data: int, deviceId: string, rd: SysfsReads)
    requires AllRead(rd)
    ensures var o := GetCurrentState(Some(cb), data, deviceId, rd);
            o.ret == 0 && o.delivered.Some?
            && var info := o.delivered.value.info;
            o.delivered.value.cb == cb && o.delivered.value.data == data
            && info.name == deviceId
            && info.status == RemoveNotString(rd.status.value)
            && info.health == RemoveNotString(rd.health.value)
            && GetPowerSource(true, rd.charger) == Got(info.powerSource)
            && info.online == rd.online.value && info.present == rd.present.value
            && info.capacity == rd.capacity.value && info.temperature == rd.temp.value
            && info.voltageNow == rd.voltageNow.value && info.voltageAverage == info.voltageNow
            && info.currentAverage == info.currentNow
            && (rd.currentNow.value != 0 ==> info.currentNow == rd.currentNow.value)
            && (rd.currentNow.value == 0 ==> (info.currentNow == 1 <==> info.status == Charging))
            && (rd.currentNow.value == 0 ==> (info.currentNow == -1 <==> info.status != Charging))
  {
  }

  /** Every read succeeded exactly when every status is 0. */
  lemma AllReadCodes(rd: SysfsReads)
    ensures AllRead(rd) <==> forall i :: 0 <= i < |ReadCodes(rd)| ==> ReadCodes(rd)[i] == 0
  {
    var codes := ReadCodes(rd);
    if forall i :: 0 <= i < |codes| ==> codes[i] == 0 {
      assert codes[0] == 0 && codes[1] == 0 && codes[2] == 0 && codes[3] == 0 && codes[4] == 0;
      assert codes[5] == 0 && codes[6] == 0 && codes[7] == 0 && codes[8] == 0;
    }
  }

  /** The read a failing call stopped at: the first one that failed. */
  function FailedRead(rd: SysfsReads): (k: nat)
    requires !AllRead(rd)
    ensures FirstFailsAt(ReadCodes(rd), k)
  {
    if rd.status.Failed? then 0
    else if rd.health.Failed? then 1
    else if rd.charger.OpenFailed? then 2
    else if rd.online.Failed? then 3
    else if rd.present.Failed? then 4
    else if rd.capacity.Failed? then 5
    else if rd.currentNow.Failed? then 6
    else if rd.voltageNow.Failed? then 7
    else 8
  }

  /** With a callback, battery_get_current_state returns 0 when every read
      succeeded and otherwise the status of the first read that failed, in
      read order. */
  lemma CurrentStateFirstFailure(cb: Callback, data: int, deviceId: string, rd: SysfsReads)
    ensures var o := GetCurrentState(Some(cb), data, deviceId, rd);
            var codes := ReadCodes(rd);
            (o.ret == 0 <==> forall i :: 0 <= i < |codes| ==> codes[i] == 0)
            && (o.ret != 0 ==> exists k: nat :: FirstFailsAt(codes, k) && codes[k] == o.ret)
  {
    AllReadCodes(rd);
    if !AllRead(rd) {
      var k := FailedRead(rd);
      FailedReadReturned(cb, data, deviceId, rd);
      assert FirstFailsAt(ReadCodes(rd), k);
    }
  }

  /** A failing call returns the status of the read FailedRead names. */
  lemma FailedReadReturned(cb: Callback, data: int, deviceId: string, rd: SysfsReads)
    requires !AllRead(rd)
    ensures GetCurrentState(Some(cb), data, deviceId, rd).ret == ReadCodes(rd)[FailedRead(rd)]
  {
  }

  /** Every one of the ten POWER_SUPPLY properties uevent_delivered reads is present. */
  predicate HasAllKeys(props: map<string, string>)
  {
    && "POWER_SUPPLY_NAME" in props && "POWER_SUPPLY_STATUS" in props
    && "POWER_SUPPLY_HEALTH" in props && "POWER_SUPPLY_ONLINE" in props
    && "POWER_SUPPLY_PRESENT" in props && "POWER_SUPPLY_CAPACITY" in props
    && "POWER_SUPPLY_CURRENT_NOW" in props && "POWER_SUPPLY_VOLTAGE_NOW" in props
    && "POWER_SUPPLY_VOLTAGE_AVG" in props && "POWER_SUPPLY_TEMP" in props
  }

  /** uevent_delivered: nothing happens without a registered callback, with
      any of the ten properties missing, or when the charger-state file
      cannot be opened. Otherwise the callback receives the record built
      from the properties: strings taken as they are, numbers through
      `atoi`, the current average copied from the current, the voltage
      average read from its own property, and the current sentinels
      applied. */
  function UeventDelivered(reg: Registration, props: map<string, string>, charger: FileOpen): (d: Option<Delivery>)
    ensures d.Some? <==> reg.cb.Some? && HasAllKeys(props) && charger.Opened?
    ensures d.Some? ==>
              var info := d.value.info;
              d.value.cb == reg.cb.value && d.value.data == reg.data
              && info.name == props["POWER_SUPPLY_NAME"]
              && info.status == props["POWER_SUPPLY_STATUS"]
              && info.health == props["POWER_SUPPLY_HEALTH"]
              && GetPowerSource(true, charger) == Got(info.powerSource)
              && info.online == Atoi(props["POWER_SUPPLY_ONLINE"])
              && info.present == Atoi(props["POWER_SUPPLY_PRESENT"])
              && info.capacity == Atoi(props["POWER_SUPPLY_CAPACITY"])
              && info.voltageNow == Atoi(props["POWER_SUPPLY_VOLTAGE_NOW"])
              && info.voltageAverage == Atoi(props["POWER_SUPPLY_VOLTAGE_AVG"])
              && info.temperature == Atoi(props["POWER_SUPPLY_TEMP"])
              && info.currentAverage == info.currentNow
              && var now := Atoi(props["POWER_SUPPLY_CURRENT_NOW"]);
                 (now != 0 ==> info.currentNow == now)
                 && (now == 0 ==> (info.currentNow == 1 <==> info.status == Charging))
                 && (now == 0 ==> (info.currentNow == -1 <==> info.status != Charging))
  {
    if reg.cb.None? then None
    else if "POWER_SUPPLY_NAME" !in props then None
    else if "POWER_SUPPLY_STATUS" !in props then None
    else if "POWER_SUPPLY_HEALTH" !in props then None
    else if "POWER_SUPPLY_ONLINE" !in props then None
    else if "POWER_SUPPLY_PRESENT" !in props then None
    else if "POWER_SUPPLY_CAPACITY" !in props then None
    else if "POWER_SUPPLY_CURRENT_NOW" !in props then None
    else if "POWER_SUPPLY_VOLTAGE_NOW" !in props then None
    else if "POWER_SUPPLY_VOLTAGE_AVG" !in props then None
    else if "POWER_SUPPLY_TEMP" !in props then None
    else
      var now := Atoi(props["POWER_SUPPLY_CURRENT_NOW"]);
      var info := BatteryInfo(props["POWER_SUPPLY_NAME"], props["POWER_SUPPLY_STATUS"], props["POWER_SUPPLY_HEALTH"],
                              NoSource, Atoi(props["POWER_SUPPLY_ONLINE"]), Atoi(props["POWER_SUPPLY_PRESENT"]),
                              Atoi(props["POWER_SUPPLY_CAPACITY"]), now, now,
                              Atoi(props["POWER_SUPPLY_VOLTAGE_NOW"]), Atoi(props["POWER_SUPPLY_VOLTAGE_AVG"]),
                              Atoi(props["POWER_SUPPLY_TEMP"]));
      var adjusted := AdjustCurrent(info);
      match GetPowerSource(true, charger)
      case Failed(_) => None
      case Got(src) => Some(Delivery(reg.cb.value, adjusted.(powerSource := src), reg.data))
  }

  /** The two report paths agree on the current average but not on the
      voltage average: the sysfs path copies voltage_now, the uevent path
      reads POWER_SUPPLY_VOLTAGE_AVG. */
  lemma VoltageAverageDiffers(cb: Callback, props: map<string, string>, charger: FileOpen)
    requires HasAllKeys(props) && charger.Opened?
    requires Atoi(props["POWER_SUPPLY_VOLTAGE_AVG"]) != Atoi(props["POWER_SUPPLY_VOLTAGE_NOW"])
    ensures var d := UeventDelivered(Registration(Some(cb), 0), props, charger);
            d.Some? && d.value.info.voltageAverage != d.value.info.voltageNow
  {
  }
}
