/** The notification LED's blink sequencer (hw/led/led.c): a request either
    turns the LED off, writes one colour once (manual mode), or decomposes
    the colour into a cyclic play list that a timer walks one entry per tick
    (blink mode). The timer is replaced by an explicit `Tick`, whose
    callers say whether arming the next timeout succeeded; every step
    reports the brightness writes it issued. */
module LedSequencer {
  import opened CTypes
  import opened LedColour

  /** led_state.type: LED_TYPE_MANUAL, LED_TYPE_BLINK or any other value. */
  datatype LedType = Manual | Blink | Unsupported(code: int)

  /** struct led_state as the notification LED reads it. */
  datatype LedState = LedState(kind: LedType, color: u32, dutyOn: i32, dutyOff: i32)

  /** struct notification_play_color_info: a colour held for `time` milliseconds. */
  datatype PlayEntry = PlayEntry(color: u32, time: i32)

  /** struct notification_play_info, the sequencer's whole state: the play
      list, its recorded length, the entry the next tick applies, and the
      interval of the pending timer, if one is armed. */
  datatype PlayInfo = PlayInfo(playList: seq<PlayEntry>, nrPlay: int, index: int, timer: Option<u32>)

  /** Nothing playing: no list, no timer. */
  const Idle: PlayInfo := PlayInfo([], 0, 0, None)

  /** The interval `g_timeout_add` receives: an entry's `int` time converted to `guint`. */
  function Interval(time: i32): (u: u32)
    ensures time >= 0 ==> u == time
    ensures time < 0 ==> u >= 0x8000_0000
  {
    ToU32(time)
  }

  /** The entry applied just before the one at `index`, cyclically. */
  function Previous(st: PlayInfo): (p: nat)
    requires 0 <= st.index < |st.playList|
    ensures p < |st.playList| && (p + 1) % |st.playList| == st.index
  {
    if st.index == 0 then |st.playList| - 1 else st.index - 1
  }

  /** A blink in progress: a non-empty list whose recorded length is right,
      an index inside it, and a timer armed for the entry on display. */
  predicate Running(st: PlayInfo)
  {
    && |st.playList| > 0
    && st.nrPlay == |st.playList|
    && 0 <= st.index < |st.playList|
    && st.timer == Some(Interval(st.playList[Previous(st)].time))
  }

  /** The states a request or a tick leaves behind. */
  predicate Settled(st: PlayInfo)
  {
    st == Idle || Running(st)
  }

  /** The state after a step, the brightness writes it issued in order, and what it returned. */
  datatype Transition<+R> = Transition(info: PlayInfo, writes: seq<Write>, result: R)

  /** Every bound channel's last attempted write is its own byte of `color`. */
  predicate Shows(ws: seq<Write>, reg: Registry, color: u32)
  {
    forall c :: c in reg ==> LastWritten(ws, c) == Some(Brightness(c, color))
  }

  /** Only bound channels are written. */
  predicate OnlyBound(ws: seq<Write>, reg: Registry)
  {
    forall i :: 0 <= i < |ws| ==> ws[i].channel in reg
  }

  /** Every bound channel is written at least once. */
  predicate Covers(ws: seq<Write>, reg: Registry)
  {
    forall c :: c in reg ==> LastWritten(ws, c).Some?
  }

  /** Writes that reach every bound channel decide what it shows, whatever came before. */
  lemma AppendCovers(before: seq<Write>, ws: seq<Write>, reg: Registry)
    requires Covers(ws, reg)
    ensures forall c :: c in reg ==> LastWritten(before + ws, c) == LastWritten(ws, c)
  {
    forall c | c in reg ensures LastWritten(before + ws, c) == LastWritten(ws, c) {
      LastWrittenAppend(before, ws, c);
    }
  }

  /** Writes that show a colour still show it after earlier writes. */
  lemma AppendShows(before: seq<Write>, ws: seq<Write>, reg: Registry, color: u32)
    requires Shows(ws, reg, color)
    ensures Shows(before + ws, reg, color)
  {
    forall c | c in reg ensures LastWritten(before + ws, c) == Some(Brightness(c, color)) {
      LastWrittenAppend(before, ws, c);
    }
  }

  lemma AppendOnlyBound(a: seq<Write>, b: seq<Write>, reg: Registry)
    requires OnlyBound(a, reg) && OnlyBound(b, reg)
    ensures OnlyBound(a + b, reg)
  {
    forall i | 0 <= i < |a + b| ensures (a + b)[i].channel in reg {
      if i >= |a| {
        assert (a + b)[i] == b[i - |a|];
      }
    }
  }

  /** release_play_info: drop the list, zero the count and the index, remove
      the timer, and write 0 to every bound channel (the status of those
      writes is ignored). */
  function Release(reg: Registry, res: WriteResults): (t: Transition<()>)
    ensures t.info == Idle
    ensures Shows(t.writes, reg, 0) && OnlyBound(t.writes, reg)
  {
    Transition(Idle, SetBrightness(reg, 0, res).writes, ())
  }

  /** Stop blinking after the writes `before`: release everything and report G_SOURCE_REMOVE. */
  function Stop(reg: Registry, res: WriteResults, before: seq<Write>): (t: Transition<bool>)
    requires OnlyBound(before, reg)
    ensures t.info == Idle && !t.result
    ensures Shows(t.writes, reg, 0) && OnlyBound(t.writes, reg)
  {
    var off := Release(reg, res).writes;
    AppendShows(before, off, reg, 0);
    AppendOnlyBound(before, off, reg);
    Transition(Idle, before + off, false)
  }

  /** notification_timer_expired: the pending timer is dropped; the entry at
      `index` is looked up (a missing entry, including any entry of an empty
      list, stops the blink); a new timer is armed for the entry's time
      (`timerOk` says whether `g_timeout_add` succeeded; failure stops the
      blink); the entry's colour is written (a failed write stops the
      blink); the index moves on and wraps to 0 when it reaches `nrPlay`.
      The result is true for G_SOURCE_CONTINUE. */
  function Tick(st: PlayInfo, reg: Registry, timerOk: bool, res: WriteResults): (t: Transition<bool>)
    ensures t.result <==> 0 <= st.index < |st.playList| && timerOk && forall c :: c in reg ==> res(c) >= 0
    ensures !t.result ==> t.info == Idle && Shows(t.writes, reg, 0)
    ensures t.result ==> Shows(t.writes, reg, st.playList[st.index].color)
    ensures t.result ==> t.info.playList == st.playList && t.info.nrPlay == st.nrPlay
                         && t.info.timer == Some(Interval(st.playList[st.index].time))
    ensures OnlyBound(t.writes, reg)
  {
    if !(0 <= st.index < |st.playList|) then Stop(reg, res, [])
    else
      var entry := st.playList[st.index];
      if !timerOk then Stop(reg, res, [])
      else
        var a := SetBrightness(reg, entry.color, res);
        if a.err < 0 then Stop(reg, res, a.writes)
        else
          var next := st.index + 1;
          Transition(st.(index := if next == st.nrPlay then 0 else next, timer := Some(Interval(entry.time))),
                     a.writes, true)
  }

  /** A successful tick of a running blink keeps it running and moves the
      index one entry on, cyclically; a failed one leaves nothing running. */
  lemma TickKeepsRunning(st: PlayInfo, reg: Registry, timerOk: bool, res: WriteResults)
    requires Settled(st)
    ensures Settled(Tick(st, reg, timerOk, res).info)
    ensures var t := Tick(st, reg, timerOk, res);
            t.result ==> Running(t.info) && t.info.index == (st.index + 1) % |st.playList|
  {
    var t := Tick(st, reg, timerOk, res);
    if t.result {
      WrapStep(st.index, |st.playList|);
      assert t.info.playList == st.playList && t.info.nrPlay == |st.playList|;
      assert Previous(t.info) == st.index;
      assert Running(t.info);
    } else {
      assert t.info == Idle;
    }
  }

  /** The channels of `chs` whose byte of `color` is non-zero, in order. */
  function Lit(chs: seq<Channel>, color: u32): (r: seq<Channel>)
    ensures |r| <= |chs|
    ensures forall i :: 0 <= i < |r| ==> Brightness(r[i], color) != 0 && r[i] in chs
    ensures forall c :: c in chs && Brightness(c, color) != 0 ==> c in r
  {
    if chs == [] then []
    else (if Brightness(chs[0], color) != 0 then [chs[0]] else []) + Lit(chs[1..], color)
  }

  /** The lit channels keep the order of `chs` and repeat none. */
  lemma {:induction false} LitAscending(chs: seq<Channel>, color: u32)
    requires Ascending(chs)
    ensures Ascending(Lit(chs, color))
    decreases |chs|
  {
    if chs != [] {
      var rest := Lit(chs[1..], color);
      AscendingTail(chs);
      LitAscending(chs[1..], color);
      AscendingCons(chs, rest);
      assert [] + rest == rest;
    }
  }

  /** notification_insert_play_list for one channel: an "on" entry holding
      the channel's masked colour for `on` ms, then an "off" entry holding 0
      for `off` ms; a channel whose byte is 0 adds nothing. */
  function ChannelEntries(c: Channel, color: u32, on: i32, off: i32): (r: seq<PlayEntry>)
    ensures r == [] <==> Brightness(c, color) == 0
    ensures r != [] ==> r[0].color != 0 && r[0].color == Only(c, color) && r[0].time == on
    ensures r != [] ==> |r| == 2 && r[1] == PlayEntry(0, off)
  {
    var val := Only(c, color);
    if val != 0 then [PlayEntry(val, on), PlayEntry(0, off)] else []
  }

  /** The play list the channels `chs` contribute, in order. */
  function PlayListOver(chs: seq<Channel>, color: u32, on: i32, off: i32): (r: seq<PlayEntry>)
    ensures |r| == 2 * |Lit(chs, color)|
  {
    if chs == [] then [] else ChannelEntries(chs[0], color, on, off) + PlayListOver(chs[1..], color, on, off)
  }

  /** An on/off pair for each channel of `lit`, in order. */
  function Pairs(lit: seq<Channel>, color: u32, on: i32, off: i32): (r: seq<PlayEntry>)
    ensures |r| == 2 * |lit|
  {
    if lit == [] then [] else [PlayEntry(Only(lit[0], color), on), PlayEntry(0, off)] + Pairs(lit[1..], color, on, off)
  }

  /** Walking the channels and skipping the dark ones gives one pair per lit channel. */
  lemma {:induction false} PlayListIsPairs(chs: seq<Channel>, color: u32, on: i32, off: i32)
    ensures PlayListOver(chs, color, on, off) == Pairs(Lit(chs, color), color, on, off)
    decreases |chs|
  {
    if chs != [] {
      PlayListIsPairs(chs[1..], color, on, off);
      var rest := Lit(chs[1..], color);
      if Brightness(chs[0], color) != 0 {
        assert Lit(chs, color) == [chs[0]] + rest;
        assert ([chs[0]] + rest)[1..] == rest;
      } else {
        assert Lit(chs, color) == rest;
      }
    }
  }

  /** Entry `2k` of the pairs lights channel `lit[k]` for `on` ms and entry
      `2k + 1` turns it off for `off` ms. */
  lemma {:induction false} PairEntry(lit: seq<Channel>, color: u32, on: i32, off: i32, k: nat)
    requires k < |lit|
    ensures var r := Pairs(lit, color, on, off);
            r[2 * k] == PlayEntry(Only(lit[k], color), on) && r[2 * k + 1] == PlayEntry(0, off)
    decreases k
  {
    if k > 0 {
      PairEntry(lit[1..], color, on, off, k - 1);
      var r := Pairs(lit, color, on, off);
      var tail := Pairs(lit[1..], color, on, off);
      assert r[2 * k] == tail[2 * (k - 1)];
      assert r[2 * k + 1] == tail[2 * (k - 1) + 1];
    }
  }

  /** Entry `2k` of the list lights the `k`-th lit channel for `on` ms and
      entry `2k + 1` turns it off for `off` ms. */
  lemma PlayListEntries(chs: seq<Channel>, color: u32, on: i32, off: i32)
    ensures var r := PlayListOver(chs, color, on, off);
            var lit := Lit(chs, color);
            forall k :: 0 <= k < |lit| ==>
              r[2 * k] == PlayEntry(Only(lit[k], color), on) && r[2 * k + 1] == PlayEntry(0, off)
  {
    PlayListIsPairs(chs, color, on, off);
    forall k | 0 <= k < |Lit(chs, color)| {
      PairEntry(Lit(chs, color), color, on, off, k);
    }
  }

  /** The play list of notification_set_brightness_blink: red, then green,
      then blue, each non-zero channel contributing an "on" entry holding
      its masked colour for `on` ms and then an "off" entry holding 0 for
      `off` ms. */
  function BlinkPlayList(color: u32, on: i32, off: i32): (r: seq<PlayEntry>)
    ensures |r| == 2 * |Lit(Channels, color)| && |r| <= 6 && Ascending(Lit(Channels, color))
    ensures forall k :: 0 <= k < |Lit(Channels, color)| ==>
              var c := Lit(Channels, color)[k];
              r[2 * k] == PlayEntry(Only(c, color), on) && r[2 * k + 1] == PlayEntry(0, off)
  {
    PlayListEntries(Channels, color, on, off);
    assert Ascending(Channels);
    LitAscending(Channels, color);
    PlayListOver(Channels, color, on, off)
  }

  /** An "on" entry lights exactly the one channel it was built for, at that
      channel's intensity; an "off" entry lights nothing. */
  lemma BlinkEntriesLight(color: u32, on: i32, off: i32)
    ensures var r := BlinkPlayList(color, on, off);
            var lit := Lit(Channels, color);
            forall k :: 0 <= k < |r| ==>
              if k % 2 == 0 then
                forall d :: Brightness(d, r[k].color) == if d == lit[k / 2] then Brightness(d, color) else 0
              else r[k].color == 0 && r[k].time == off
  {
    forall k | 0 <= k < |BlinkPlayList(color, on, off)| {
      BlinkEntryLights(color, on, off, k);
    }
  }

  /** What entry `k` of the play list lights. */
  lemma BlinkEntryLights(color: u32, on: i32, off: i32, k: nat)
    requires k < |BlinkPlayList(color, on, off)|
    ensures var r := BlinkPlayList(color, on, off);
            var lit := Lit(Channels, color);
            if k % 2 == 0 then
              forall d :: Brightness(d, r[k].color) == if d == lit[k / 2] then Brightness(d, color) else 0
            else r[k].color == 0 && r[k].time == off
  {
    var r := BlinkPlayList(color, on, off);
    var lit := Lit(Channels, color);
    var h := k / 2;
    assert k == 2 * h || k == 2 * h + 1;
    assert r[2 * h] == PlayEntry(Only(lit[h], color), on);
    OnlyLightsOne(lit[h], color);
  }

  /** The decomposition reads only the three intensity bytes: the type byte
      plays no part in it. */
  lemma {:induction false} BlinkIgnoresType(chs: seq<Channel>, color1: u32, color2: u32, on: i32, off: i32)
    requires forall c :: Brightness(c, color1) == Brightness(c, color2)
    ensures PlayListOver(chs, color1, on, off) == PlayListOver(chs, color2, on, off)
  {
    if chs != [] {
      BlinkIgnoresType(chs[1..], color1, color2, on, off);
      assert Only(chs[0], color1) == Only(chs[0], color2);
    }
  }

  /** notification_set_brightness_blink, run right after a release: build
      the play list, start at index 0 and run the first tick at once. The
      result is 0 whatever the tick did. The blink keeps running exactly when
      some channel is lit, the timer could be armed and every write
      succeeded; it then shows the first entry, waits `dutyOn` ms and will
      apply entry 1 next. */
  function SetBrightnessBlink(reg: Registry, r: LedState, timerOk: bool, res: WriteResults): (t: Transition<int>)
    ensures t.result == 0 && Settled(t.info) && OnlyBound(t.writes, reg)
    ensures t.info == Idle <==> Lit(Channels, r.color) == [] || !timerOk || exists c :: c in reg && res(c) < 0
    ensures t.info == Idle ==> Shows(t.writes, reg, 0)
    ensures t.info != Idle ==>
              t.info.playList == BlinkPlayList(r.color, r.dutyOn, r.dutyOff) && t.info.index == 1
              && t.info.timer == Some(Interval(r.dutyOn))
              && Shows(t.writes, reg, Only(Lit(Channels, r.color)[0], r.color))
  {
    var list := BlinkPlayList(r.color, r.dutyOn, r.dutyOff);
    var start := PlayInfo(list, |list|, 0, None);
    var first := Tick(start, reg, timerOk, res);
    TickKeepsStarting(start, reg, timerOk, res);
    assert first.result ==> list[0] == PlayEntry(Only(Lit(Channels, r.color)[0], r.color), r.dutyOn);
    Transition(first.info, first.writes, 0)
  }

  /** `err` is the negative result of a bound channel's write, and every
      bound channel after it in the table was written successfully: the
      status `notification_set_brightness` reports when a write fails. */
  predicate FailedLast(err: int, reg: Registry, res: WriteResults)
  {
    err < 0 && exists c :: c in reg && res(c) == err && FailsLast(c, reg, res)
  }

  /** notification_turn_on: manual mode writes the colour once and returns
      the fan-out's status; blink mode starts the play list. */
  function TurnOn(reg: Registry, r: LedState, timerOk: bool, res: WriteResults): (t: Transition<int>)
    requires !r.kind.Unsupported?
    ensures Settled(t.info) && OnlyBound(t.writes, reg) && Covers(t.writes, reg)
    ensures r.kind.Manual? ==> t.info == Idle && Shows(t.writes, reg, r.color)
                               && (t.result == 0 <==> forall c :: c in reg ==> res(c) >= 0)
                               && (t.result != 0 ==> FailedLast(t.result, reg, res))
    ensures r.kind.Blink? ==> t.result == 0
  {
    if r.kind.Manual? then
      var a := SetBrightness(reg, r.color, res);
      Transition(Idle, a.writes, a.err)
    else
      SetBrightnessBlink(reg, r, timerOk, res)
  }

  /** notification_set_state. A missing request fails with -EINVAL and an
      unsupported type with -ENOTSUP, both before anything changes. Every
      accepted request first releases the running sequence, so its writes
      start with a 0 for every bound channel. Then a zero type byte turns
      the LED off whatever the mode, reporting the turn-off's status;
      otherwise the request is turned on. */
  function SetState(st: PlayInfo, reg: Registry, req: Option<LedState>, timerOk: bool, res: WriteResults): (t: Transition<int>)
    ensures req.None? ==> t == Transition(st, [], -EINVAL)
    ensures req.Some? && req.value.kind.Unsupported? ==> t == Transition(st, [], -ENOTSUP)
    ensures Accepted(req) ==> Settled(t.info) && OnlyBound(t.writes, reg)
    ensures Accepted(req) ==> Release(reg, res).writes <= t.writes
    ensures Accepted(req) && TypeByte(req.value.color) == 0 ==>
              t.info == Idle && Shows(t.writes, reg, 0)
              && (t.result == 0 <==> forall c :: c in reg ==> res(c) >= 0)
              && (t.result != 0 ==> FailedLast(t.result, reg, res))
    ensures Accepted(req) && TypeByte(req.value.color) != 0 ==>
              var on := TurnOn(reg, req.value, timerOk, res);
              t.info == on.info && t.result == on.result
              && forall c :: c in reg ==> LastWritten(t.writes, c) == LastWritten(on.writes, c)
  {
    match req
    case None => Transition(st, [], -EINVAL)
    case Some(r) =>
      if r.kind.Unsupported? then Transition(st, [], -ENOTSUP)
      else
        var off := Release(reg, res).writes;
        var next := if TypeByte(r.color) == 0 then
                      var a := SetBrightness(reg, 0, res);
                      Transition(Idle, a.writes, a.err)
                    else TurnOn(reg, r, timerOk, res);
        AppendOnlyBound(off, next.writes, reg);
        AppendCovers(off, next.writes, reg);
        Transition(next.info, off + next.writes, next.result)
  }

  /** A manual request with a non-zero type byte ends with every bound
      channel showing its own byte of the colour, nothing running, and the
      status 0 exactly when every write succeeded. */
  lemma SetStateManual(st: PlayInfo, reg: Registry, req: Option<LedState>, timerOk: bool, res: WriteResults)
    requires req.Some? && req.value.kind.Manual? && TypeByte(req.value.color) != 0
    ensures var t := SetState(st, reg, req, timerOk, res);
            t.info == Idle && Shows(t.writes, reg, req.value.color)
            && (t.result == 0 <==> forall c :: c in reg ==> res(c) >= 0)
            && (t.result != 0 ==> FailedLast(t.result, reg, res))
  {
  }

  /** A blink request with a non-zero type byte returns 0; it is left
      running exactly when some channel is lit, the timer could be armed and
      every write succeeded, and then shows the first entry of the play list
      and waits `dutyOn` ms; otherwise every bound channel ends at 0. */
  lemma SetStateBlink(st: PlayInfo, reg: Registry, req: Option<LedState>, timerOk: bool, res: WriteResults)
    requires req.Some? && req.value.kind.Blink? && TypeByte(req.value.color) != 0
    ensures var t := SetState(st, reg, req, timerOk, res);
            var r := req.value;
            t.result == 0
            && (t.info == Idle <==> Lit(Channels, r.color) == [] || !timerOk || exists c :: c in reg && res(c) < 0)
            && (t.info == Idle ==> Shows(t.writes, reg, 0))
            && (t.info != Idle ==>
                  t.info.playList == BlinkPlayList(r.color, r.dutyOn, r.dutyOff) && t.info.index == 1
                  && t.info.timer == Some(Interval(r.dutyOn))
                  && Shows(t.writes, reg, Only(Lit(Channels, r.color)[0], r.color)))
  {
  }

  /** A request the type check lets through. */
  predicate Accepted(req: Option<LedState>)
  {
    req.Some? && !req.value.kind.Unsupported?
  }

  /** The first tick of a freshly built play list either starts a blink at
      index 1, timed by the first entry, or leaves nothing running. */
  lemma TickKeepsStarting(start: PlayInfo, reg: Registry, timerOk: bool, res: WriteResults)
    requires start.nrPlay == |start.playList| && start.index == 0 && |start.playList| != 1
    ensures var t := Tick(start, reg, timerOk, res);
            Settled(t.info) && (t.result ==> t.info.index == 1 && Running(t.info))
  {
    var t := Tick(start, reg, timerOk, res);
    if t.result {
      assert Previous(t.info) == 0;
    }
  }

  /** An accepted request does not depend on what was playing before it:
      whatever the sequencer was doing, the outcome is the same. So no entry
      of an earlier play list and no earlier timer survive a new request. */
  lemma SetStateForgetsPast(st1: PlayInfo, st2: PlayInfo, reg: Registry, req: Option<LedState>, timerOk: bool, res: WriteResults)
    requires Accepted(req)
    ensures SetState(st1, reg, req, timerOk, res) == SetState(st2, reg, req, timerOk, res)
  {
  }

  /** Issuing the same request twice in a row ends in the same state, with
      every channel showing the same value, as issuing it once. */
  lemma SetStateTwice(st: PlayInfo, reg: Registry, req: Option<LedState>, timerOk: bool, res: WriteResults)
    requires Accepted(req)
    ensures var once := SetState(st, reg, req, timerOk, res);
            var twice := SetState(once.info, reg, req, timerOk, res);
            twice.info == once.info
            && forall c :: LastWritten(once.writes + twice.writes, c) == LastWritten(once.writes, c)
  {
    var once := SetState(st, reg, req, timerOk, res);
    var twice := SetState(once.info, reg, req, timerOk, res);
    SetStateForgetsPast(st, once.info, reg, req, timerOk, res);
    forall c ensures LastWritten(once.writes + twice.writes, c) == LastWritten(once.writes, c) {
      LastWrittenAppend(once.writes, twice.writes, c);
    }
  }

  /** `k` ticks in a row, each arming its timer and writing successfully. */
  function RunTicks(st: PlayInfo, reg: Registry, res: WriteResults, k: nat): PlayInfo
    requires forall c :: c in reg ==> res(c) >= 0
    decreases k
  {
    if k == 0 then st else RunTicks(Tick(st, reg, true, res).info, reg, res, k - 1)
  }

  /** The state after one successful tick of a running blink. */
  lemma TickStep(st: PlayInfo, reg: Registry, res: WriteResults) returns (next: PlayInfo)
    requires forall c :: c in reg ==> res(c) >= 0
    requires Running(st)
    ensures next == Tick(st, reg, true, res).info
    ensures Running(next) && next.playList == st.playList
    ensures next.index == if st.index + 1 == |st.playList| then 0 else st.index + 1
  {
    TickKeepsRunning(st, reg, true, res);
    next := Tick(st, reg, true, res).info;
  }

  /** Successful ticks keep a blink running on the same list. */
  lemma {:induction false} TicksKeepList(st: PlayInfo, reg: Registry, res: WriteResults, k: nat)
    requires forall c :: c in reg ==> res(c) >= 0
    requires Running(st)
    ensures Running(RunTicks(st, reg, res, k))
    ensures RunTicks(st, reg, res, k).playList == st.playList
    decreases k
  {
    if k > 0 {
      var next := TickStep(st, reg, res);
      TicksKeepList(next, reg, res, k - 1);
    }
  }

  /** The index `k` cyclic steps after `i` in a list of `n` entries. */
  function Cycle(i: nat, k: nat, n: nat): (j: nat)
    requires i < n
    ensures j < n
    decreases k
  {
    if k == 0 then i else Cycle(if i + 1 == n then 0 else i + 1, k - 1, n)
  }

  /** Cyclic stepping is addition modulo the list length. */
  lemma {:induction false} CycleIsMod(i: nat, k: nat, n: nat)
    requires i < n
    ensures Cycle(i, k, n) == (i + k) % n
    decreases k
  {
    if k > 0 {
      var j := if i + 1 == n then 0 else i + 1;
      CycleIsMod(j, k - 1, n);
      CyclicStep(i, k, n);
    }
  }

  /** A full turn of cyclic steps comes back to the start. */
  lemma CycleFullTurn(i: nat, n: nat)
    requires i < n
    ensures Cycle(i, n, n) == i
  {
    CycleIsMod(i, n, n);
    FullTurn(i, n);
  }

  /** Successful ticks move the index one step each, cyclically. */
  lemma {:induction false} TicksCycle(st: PlayInfo, reg: Registry, res: WriteResults, k: nat)
    requires forall c :: c in reg ==> res(c) >= 0
    requires Running(st)
    ensures RunTicks(st, reg, res, k).index == Cycle(st.index, k, |st.playList|)
    decreases k
  {
    if k > 0 {
      var next := TickStep(st, reg, res);
      var n := |st.playList|;
      var after := RunTicks(next, reg, res, k - 1);
      assert RunTicks(st, reg, res, k) == after;
      assert Cycle(st.index, k, n) == Cycle(next.index, k - 1, n);
      TicksCycle(next, reg, res, k - 1);
      assert |next.playList| == n;
      assert after.index == Cycle(next.index, k - 1, n);
    }
  }

  /** After `k` successful ticks the index has moved `k` entries on, modulo the list length. */
  lemma TicksAdvance(st: PlayInfo, reg: Registry, res: WriteResults, k: nat)
    requires forall c :: c in reg ==> res(c) >= 0
    requires Running(st)
    ensures RunTicks(st, reg, res, k).index == (st.index + k) % |st.playList|
  {
    TicksCycle(st, reg, res, k);
    CycleIsMod(st.index, k, |st.playList|);
  }

  lemma MulAtLeast(n: nat, d: int)
    requires 0 < n && 1 <= d
    ensures n * d >= n
  {
  }

  lemma MulAtMost(n: int, d: int)
    requires 0 < n && d <= -1
    ensures n * d <= -n
  {
    MulAtLeast(n, -d);
    assert n * d == -(n * -d);
  }

  /** Adding the modulus does not change a remainder. */
  lemma ModShift(x: nat, n: nat)
    requires 0 < n
    ensures (x + n) % n == x % n
  {
    var d := (x + n) / n - x / n - 1;
    assert n * ((x + n) / n) + (x + n) % n == x + n;
    assert n * (x / n) + x % n == x;
    assert n * d == n * ((x + n) / n) - n * (x / n) - n;
    assert n * d == x % n - (x + n) % n;
    if d >= 1 {
      MulAtLeast(n, d);
    } else if d <= -1 {
      MulAtMost(n, d);
    }
  }

  /** A number below the modulus is its own remainder. */
  lemma SmallMod(x: nat, n: nat)
    requires x < n
    ensures x % n == x
  {
    var d := x / n;
    assert n * d + x % n == x;
    if d >= 1 {
      MulAtLeast(n, d);
    } else if d <= -1 {
      MulAtMost(n, d);
    }
  }

  /** One step forward with a wrap to 0 at `n` is one step modulo `n`. */
  lemma WrapStep(i: nat, n: nat)
    requires i < n
    ensures (i + 1) % n == if i + 1 == n then 0 else i + 1
  {
    if i + 1 == n {
      ModShift(0, n);
    } else {
      SmallMod(i + 1, n);
    }
  }

  /** One step and then `k - 1` more land where `k` steps do, modulo `n`. */
  lemma CyclicStep(i: nat, k: nat, n: nat)
    requires i < n && 0 < k
    ensures ((if i + 1 == n then 0 else i + 1) + (k - 1)) % n == (i + k) % n
  {
    if i + 1 == n {
      ModShift(k - 1, n);
      assert i + k == (k - 1) + n;
    } else {
      assert (i + 1) % n == i + 1;
    }
  }

  /** `n` steps from `i` come back to `i`, modulo `n`. */
  lemma FullTurn(i: nat, n: nat)
    requires i < n
    ensures (i + n) % n == i
  {
    ModShift(i, n);
  }

  /** After as many successful ticks as the list has entries the sequencer
      is back where it started, so the writes repeat exactly from there. */
  lemma CycleReturns(st: PlayInfo, reg: Registry, res: WriteResults)
    requires forall c :: c in reg ==> res(c) >= 0
    requires Running(st)
    ensures RunTicks(st, reg, res, |st.playList|) == st
  {
    var n := |st.playList|;
    TicksCycle(st, reg, res, n);
    CycleFullTurn(st.index, n);
    TicksKeepList(st, reg, res, n);
    var end := RunTicks(st, reg, res, n);
    assert Previous(end) == Previous(st);
  }

  /** Colour 0x00FF0000 in manual mode: the red byte is 255 but the type
      byte is 0, so the request turns every bound channel off and nothing
      keeps playing. */
  lemma RedTypeZeroScenario(st: PlayInfo, reg: Registry, timerOk: bool, res: WriteResults, color: u32)
    requires color == 0x00FF_0000
    ensures Brightness(Red, color) == 255
    ensures var t := SetState(st, reg, Some(LedState(Manual, color, 0, 0)), timerOk, res);
            t.info == Idle && Shows(t.writes, reg, 0)
  {
    assert TypeByte(color) == 0;
  }

  /** Colour 0xFF00FF00 with 500 ms on and 200 ms off: green alone, on then off. */
  lemma GreenBlinkScenario()
    ensures BlinkPlayList(0xFF00FF00, 500, 200) == [PlayEntry(0xFF00, 500), PlayEntry(0, 200)]
  {
    assert Only(Green, 0xFF00FF00) == 0xFF00;
    assert Lit(Channels, 0xFF00FF00) == [Green];
  }
}
