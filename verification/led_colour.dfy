/** The notification LED's packed colour, its three channels and the
    best-effort fan-out that writes one brightness value per bound channel
    (`notification_set_brightness` in hw/led/led.c). */
module LedColour {
  import opened CTypes

  datatype Channel = Red | Green | Blue

  /** The node table's order: channels are written and decomposed in this order. */
  const Channels: seq<Channel> := [Red, Green, Blue]

  /** A channel's position in the node table. */
  function Rank(c: Channel): (r: nat)
    ensures r < 3 && Channels[r] == c
  {
    match c
    case Red => 0
    case Green => 1
    case Blue => 2
  }

  /** The marker text that identifies a channel's LED node. */
  function Name(c: Channel): (n: string)
    ensures 0 < |n| < 8
  {
    match c
    case Red => "RED"
    case Green => "GREEN"
    case Blue => "BLUE"
  }

  /** GET_TYPE: the top byte, bits 24-31. Zero means "off". */
  function TypeByte(color: u32): (t: byte)
    ensures t == ByteAt(color, 3)
    ensures t == 0 <==> color < 0x100_0000
  {
    (color / 0x100_0000) % 256
  }

  /** GET_RED_BRT, GET_GREEN_BRT, GET_BLUE_BRT: a channel's intensity, red
      being bits 16-23, green bits 8-15 and blue bits 0-7. */
  function Brightness(c: Channel, color: u32): (b: byte)
    ensures b == ByteAt(color, 2 - Rank(c))
  {
    match c
    case Red => (color / 0x1_0000) % 256
    case Green => (color / 0x100) % 256
    case Blue => color % 256
  }

  /** A channel's byte put back in its place within a packed colour. */
  function Place(c: Channel, b: byte): u32
  {
    match c
    case Red => b * 0x1_0000
    case Green => b * 0x100
    case Blue => b
  }

  /** The four bytes of a colour are the type byte and the three intensities,
      so a colour is fully described by them. */
  lemma ColourBytes(color: u32)
    ensures color == 0x100_0000 * TypeByte(color) + Place(Red, Brightness(Red, color))
                     + Place(Green, Brightness(Green, color)) + Brightness(Blue, color)
  {
    BytesRoundTrip(color);
  }

  /** A colour with only one channel's byte set lights that channel alone. */
  lemma SingleChannel(c: Channel, b: byte)
    ensures forall d :: Brightness(d, Place(c, b)) == if d == c then b else 0
    ensures TypeByte(Place(c, b)) == 0
  {
    forall d ensures Brightness(d, Place(c, b)) == if d == c then b else 0 {
      match c
      case Red => {
        assert (b * 0x1_0000) / 0x100 == b * 0x100;
      }
      case Green => {
        assert (b * 0x100) / 0x1_0000 == 0;
      }
      case Blue => {
      }
    }
  }

  /** GET_RED_ONLY, GET_GREEN_ONLY, GET_BLUE_ONLY: the colour with every
      byte but one channel's masked off. */
  function Only(c: Channel, color: u32): (m: u32)
    ensures m != 0 <==> Brightness(c, color) != 0
    ensures Brightness(c, m) == Brightness(c, color)
    ensures TypeByte(m) == 0
  {
    SingleChannel(c, Brightness(c, color));
    Place(c, Brightness(c, color))
  }

  /** The channels whose brightness file was found: each maps to the LED node
      number `n` of `/sys/class/leds/led.n/brightness`. A channel absent from
      the map has no path and is never written. */
  type Registry = map<Channel, int>

  /** One `sys_set_int` on a channel's brightness file. */
  datatype Write = Write(channel: Channel, node: int, value: int)

  /** The result of one `sys_set_int` per channel: negative means failure. */
  type WriteResults = Channel -> int

  /** The value of the last write attempted on channel `c`, if any, whatever its result. */
  function LastWritten(ws: seq<Write>, c: Channel): Option<int>
  {
    if ws == [] then None
    else if ws[|ws| - 1].channel == c then Some(ws[|ws| - 1].value)
    else LastWritten(ws[..|ws| - 1], c)
  }

  /** Later writes hide earlier ones. */
  lemma {:induction false} LastWrittenAppend(a: seq<Write>, b: seq<Write>, c: Channel)
    ensures LastWritten(a + b, c) == if LastWritten(b, c).Some? then LastWritten(b, c) else LastWritten(a, c)
    decreases |b|
  {
    if b == [] {
      assert a + b == a;
    } else {
      assert (a + b)[..|a + b| - 1] == a + b[..|b| - 1];
      LastWrittenAppend(a, b[..|b| - 1], c);
    }
  }

  /** Channels listed in strictly increasing table order, hence without repeats. */
  predicate Ascending(chs: seq<Channel>)
  {
    forall i, j :: 0 <= i < j < |chs| ==> Rank(chs[i]) < Rank(chs[j])
  }

  /** Dropping the first channel keeps the order. */
  lemma AscendingTail(chs: seq<Channel>)
    requires chs != []
    ensures Ascending(chs) ==> Ascending(chs[1..])
  {
    if Ascending(chs) {
      forall i, j | 0 <= i < j < |chs| - 1 ensures Rank(chs[1..][i]) < Rank(chs[1..][j]) {
        assert chs[1..][i] == chs[i + 1] && chs[1..][j] == chs[j + 1];
      }
    }
  }

  /** Putting the first channel of an ascending list in front of channels
      taken from the rest of it keeps the order. */
  lemma AscendingCons(chs: seq<Channel>, rest: seq<Channel>)
    requires chs != [] && forall i :: 0 <= i < |rest| ==> rest[i] in chs[1..]
    ensures Ascending(chs) && Ascending(rest) ==> Ascending([chs[0]] + rest)
  {
    if Ascending(chs) && Ascending(rest) {
      forall i | 0 <= i < |rest| ensures Rank(chs[0]) < Rank(rest[i]) {
        var tail := chs[1..];
        assert rest[i] in tail;
        var j :| 0 <= j < |tail| && tail[j] == rest[i];
        assert chs[j + 1] == rest[i];
      }
      var s := [chs[0]] + rest;
      forall i, j | 0 <= i < j < |s| ensures Rank(s[i]) < Rank(s[j]) {
        assert s[j] == rest[j - 1];
        if i > 0 {
          assert s[i] == rest[i - 1];
        }
      }
    }
  }

  /** The channels of `chs` that are bound in `reg`, in order. */
  function BoundIn(chs: seq<Channel>, reg: Registry): (r: seq<Channel>)
    ensures forall i :: 0 <= i < |r| ==> r[i] in reg && r[i] in chs
    ensures forall c :: c in chs && c in reg ==> c in r
  {
    if chs == [] then [] else (if chs[0] in reg then [chs[0]] else []) + BoundIn(chs[1..], reg)
  }

  /** Filtering keeps the order of the table and adds no repeats. */
  lemma {:induction false} BoundInAscending(chs: seq<Channel>, reg: Registry)
    requires Ascending(chs)
    ensures Ascending(BoundIn(chs, reg))
    decreases |chs|
  {
    if chs != [] {
      var rest := BoundIn(chs[1..], reg);
      AscendingTail(chs);
      BoundInAscending(chs[1..], reg);
      AscendingCons(chs, rest);
      assert [] + rest == rest;
    }
  }

  /** The writes and the returned status of one fan-out. */
  datatype Applied = Applied(writes: seq<Write>, err: int)

  /** Reference for the status: the result of the last bound channel of
      `chs` whose write failed, searching from the end. */
  function LastFailure(chs: seq<Channel>, reg: Registry, res: WriteResults): (r: Option<int>)
    ensures r.Some? ==> r.value < 0
  {
    if chs == [] then None
    else
      var c := chs[|chs| - 1];
      if c in reg && res(c) < 0 then Some(res(c)) else LastFailure(chs[..|chs| - 1], reg, res)
  }

  /** Taking the first channel off the front keeps later failures in front. */
  lemma {:induction false} LastFailureCons(c: Channel, chs: seq<Channel>, reg: Registry, res: WriteResults)
    ensures LastFailure([c] + chs, reg, res)
         == if LastFailure(chs, reg, res).Some? then LastFailure(chs, reg, res)
            else if c in reg && res(c) < 0 then Some(res(c)) else None
    decreases |chs|
  {
    if chs == [] {
      assert ([c] + chs)[..0] == [];
    } else {
      assert ([c] + chs)[..|[c] + chs| - 1] == [c] + chs[..|chs| - 1];
      LastFailureCons(c, chs[..|chs| - 1], reg, res);
    }
  }

  /** The status half of the loop of `notification_set_brightness` over the
      channels `chs`, with `err` the status carried so far: a failing write of
      a bound channel replaces the status, and the loop goes on regardless. */
  function FanOutStatus(chs: seq<Channel>, reg: Registry, res: WriteResults, err: int): (r: int)
    ensures r == match LastFailure(chs, reg, res) case Some(e) => e case None => err
    decreases |chs|
  {
    if chs == [] then err
    else
      var c := chs[0];
      LastFailureCons(c, chs[1..], reg, res);
      assert [c] + chs[1..] == chs;
      FanOutStatus(chs[1..], reg, res, if c in reg && res(c) < 0 then res(c) else err)
  }

  /** Every channel of the table is written the value `v` picks for it, at most once. */
  lemma {:induction false} WritesShow(ws: seq<Write>, reg: Registry, v: Channel -> int)
    requires |ws| == |BoundIn(Channels, reg)|
    requires forall i :: 0 <= i < |ws| ==> ws[i].channel == BoundIn(Channels, reg)[i] && ws[i].value == v(ws[i].channel)
    ensures forall c :: LastWritten(ws, c) == if c in reg then Some(v(c)) else None
  {
    var b := BoundIn(Channels, reg);
    forall c ensures LastWritten(ws, c) == if c in reg then Some(v(c)) else None {
      if c in reg {
        assert Channels[Rank(c)] == c;
        assert c in b;
        var k :| 0 <= k < |b| && b[k] == c;
        LastWrittenAt(ws, k, c, v(c));
      } else {
        LastWrittenNone(ws, c);
      }
    }
  }

  lemma {:induction false} LastWrittenAt(ws: seq<Write>, k: nat, c: Channel, x: int)
    requires k < |ws| && ws[k].channel == c && ws[k].value == x
    requires forall i :: 0 <= i < |ws| && ws[i].channel == c ==> ws[i].value == x
    ensures LastWritten(ws, c) == Some(x)
    decreases |ws|
  {
    if ws[|ws| - 1].channel != c {
      LastWrittenAt(ws[..|ws| - 1], k, c, x);
    }
  }

  lemma {:induction false} LastWrittenNone(ws: seq<Write>, c: Channel)
    requires forall i :: 0 <= i < |ws| ==> ws[i].channel != c
    ensures LastWritten(ws, c) == None
    decreases |ws|
  {
    if ws != [] {
      LastWrittenNone(ws[..|ws| - 1], c);
    }
  }

  /** notification_set_brightness: every bound channel, in table order, is
      written its own byte of `color`; unbound channels are skipped. The
      status is 0 when every write succeeded and otherwise the result of the
      LAST failing write. */
  function SetBrightness(reg: Registry, color: u32, res: WriteResults): (a: Applied)
    ensures |a.writes| == |BoundIn(Channels, reg)|
    ensures forall i :: 0 <= i < |a.writes| ==>
              var c := BoundIn(Channels, reg)[i];
              a.writes[i] == Write(c, reg[c], Brightness(c, color))
    ensures forall c :: LastWritten(a.writes, c) == if c in reg then Some(Brightness(c, color)) else None
    ensures a.err == 0 <==> forall c :: c in reg ==> res(c) >= 0
    ensures a.err != 0 ==> a.err < 0 && exists c :: c in reg && res(c) == a.err && FailsLast(c, reg, res)
  {
    var b := BoundIn(Channels, reg);
    var a := Applied(seq(|b|, i requires 0 <= i < |b| => Write(b[i], reg[b[i]], Brightness(b[i], color))),
                     FanOutStatus(Channels, reg, res, 0));
    WritesShow(a.writes, reg, c => Brightness(c, color));
    LastFailureOfTable(reg, res);
    a
  }

  /** The fan-out writes the bound channels in table order, each once. */
  lemma WritesInTableOrder(reg: Registry, color: u32, res: WriteResults)
    ensures var ws := SetBrightness(reg, color, res).writes;
            forall i, j :: 0 <= i < j < |ws| ==> Rank(ws[i].channel) < Rank(ws[j].channel)
  {
    assert Ascending(Channels);
    BoundInAscending(Channels, reg);
  }

  /** No bound channel after `c` in the table failed. */
  predicate FailsLast(c: Channel, reg: Registry, res: WriteResults)
  {
    forall d :: d in reg && Rank(c) < Rank(d) ==> res(d) >= 0
  }

  /** LastFailure over the whole table, spelt out. */
  lemma LastFailureOfTable(reg: Registry, res: WriteResults)
    ensures var f := LastFailure(Channels, reg, res);
            (f.None? <==> forall c :: c in reg ==> res(c) >= 0) &&
            (f.Some? ==> exists c :: c in reg && res(c) == f.value && FailsLast(c, reg, res))
  {
    assert Channels[..2] == [Red, Green];
    assert [Red, Green][..1] == [Red];
    assert [Red][..0] == [];
    var f := LastFailure(Channels, reg, res);
    var fr := if Red in reg && res(Red) < 0 then Some(res(Red)) else None;
    var fg := if Green in reg && res(Green) < 0 then Some(res(Green)) else fr;
    assert LastFailure([Red], reg, res) == fr;
    assert LastFailure([Red, Green], reg, res) == fg;
    assert f == if Blue in reg && res(Blue) < 0 then Some(res(Blue)) else fg;
    if f.None? {
      forall c | c in reg ensures res(c) >= 0 {
        match c
        case Red => {}
        case Green => {}
        case Blue => {}
      }
    }
    if f.Some? {
      if Blue in reg && res(Blue) < 0 {
        assert FailsLast(Blue, reg, res);
      } else if Green in reg && res(Green) < 0 {
        assert FailsLast(Green, reg, res);
      } else {
        assert FailsLast(Red, reg, res);
      }
    }
  }

  /** The masked colour of one channel lights that channel alone. */
  lemma OnlyLightsOne(c: Channel, color: u32)
    ensures forall d :: Brightness(d, Only(c, color)) == if d == c then Brightness(c, color) else 0
  {
    SingleChannel(c, Brightness(c, color));
  }

  /** notification_turn_off: the fan-out of colour 0 writes 0 to every bound channel. */
  lemma TurnOffShowsZero(reg: Registry, res: WriteResults)
    ensures forall c :: LastWritten(SetBrightness(reg, 0, res).writes, c) == if c in reg then Some(0) else None
  {
    assert forall c :: Brightness(c, 0) == 0;
  }

  /** The writes of a fan-out do not depend on whether they succeed. */
  lemma WritesIgnoreResults(reg: Registry, color: u32, res1: WriteResults, res2: WriteResults)
    ensures SetBrightness(reg, color, res1).writes == SetBrightness(reg, color, res2).writes
  {
  }
}
