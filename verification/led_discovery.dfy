/** Discovery of the notification LED's channels (`notification_get_path`
    and `notification_init_led` in hw/led/led.c): each probed node's
    `color` file names the channel its `brightness` file drives. The files
    themselves are inputs; only the matching is modelled. */
module LedDiscovery {
  import opened CTypes
  import opened LedColour

  /** `notification_get_path` reads at most `sizeof(buf) - 1` = 7 bytes of the marker. */
  const MarkerLimit: nat := 7

  /** The LED nodes `notification_init_led` probes, in order. */
  const ProbedNodes: seq<int> := [1, 2, 3]

  /** The part of the marker file the probe reads. */
  function MarkerHead(text: string): (buf: string)
    ensures buf <= text && |buf| <= MarkerLimit
  {
    if |text| <= MarkerLimit then text else text[..MarkerLimit]
  }

  /** A channel is named by a marker when its name is a prefix of the marker's text. */
  predicate Names(c: Channel, file: Option<string>)
  {
    file.Some? && Name(c) <= file.value
  }

  /** Every name fits in the bytes the probe reads, so reading only a head of
      the file never hides a match, and an empty file names nothing. */
  lemma NameFitsHead(c: Channel, text: string)
    ensures Name(c) <= MarkerHead(text) <==> Name(c) <= text
    ensures |MarkerHead(text)| == 0 ==> !(Name(c) <= text)
  {
    if Name(c) <= text && |text| > MarkerLimit {
      assert MarkerHead(text)[..|Name(c)|] == text[..|Name(c)|];
    }
  }

  /** No channel's name is a prefix of another's, so a marker names at most
      one channel and the probe binds a node to at most one channel. */
  lemma OneChannelPerMarker(c: Channel, d: Channel, text: string)
    requires Name(c) <= text && Name(d) <= text
    ensures c == d
  {
    assert Name(c)[0] == text[0] == Name(d)[0];
  }

  /** One pass of the probe's loop over the node table: bind `c` to `node`
      when its name is a prefix of the marker bytes read. */
  function Bind(reg: Registry, c: Channel, node: int, buf: string): (r: Registry)
    ensures c in r <==> c in reg || Name(c) <= buf
    ensures c in r ==> r[c] == if Name(c) <= buf then node else reg[c]
    ensures r - {c} == reg - {c}
  {
    if Name(c) <= buf then reg[c := node] else reg
  }

  /** notification_get_path(node): an unreadable or empty marker leaves the
      registry alone; otherwise every channel whose name is a prefix of the
      marker is bound to `node`, replacing an earlier binding, and the other
      channels keep theirs. */
  function GetPath(reg: Registry, node: int, file: Option<string>): (r: Registry)
    ensures forall c :: c in r <==> c in reg || Names(c, file)
    ensures forall c :: c in r ==> r[c] == if Names(c, file) then node else reg[c]
  {
    match file
    case None => reg
    case Some(text) =>
      var buf := MarkerHead(text);
      NameFitsHead(Red, text);
      NameFitsHead(Green, text);
      NameFitsHead(Blue, text);
      if |buf| == 0 then reg
      else Bind(Bind(Bind(reg, Red, node, buf), Green, node, buf), Blue, node, buf)
  }

  /** Node `n`'s marker names channel `c`. */
  predicate NodeNames(marker: int -> Option<string>, n: int, c: Channel)
  {
    Names(c, marker(n))
  }

  /** notification_init_led: nodes 1, 2 and 3 are probed in turn, `marker(n)`
      being the content of node `n`'s color file (None when it cannot be
      opened). A channel ends up bound exactly when it was bound before or
      one of the three nodes names it; it is bound to the LAST node that
      names it, and keeps its old binding when none does. */
  function InitLed(reg: Registry, marker: int -> Option<string>): (r: Registry)
    ensures forall c :: c in r <==> c in reg || exists n :: 1 <= n <= 3 && NodeNames(marker, n, c)
    ensures forall c :: c in r ==>
              if exists n :: 1 <= n <= 3 && NodeNames(marker, n, c) then
                1 <= r[c] <= 3 && NodeNames(marker, r[c], c) &&
                forall n :: r[c] < n <= 3 ==> !NodeNames(marker, n, c)
              else r[c] == reg[c]
  {
    ProbeInOrder(reg, marker);
    GetPath(GetPath(GetPath(reg, 1, marker(1)), 2, marker(2)), 3, marker(3))
  }

  /** The three probes, one after the other. */
  lemma ProbeInOrder(reg: Registry, marker: int -> Option<string>)
    ensures var r := GetPath(GetPath(GetPath(reg, 1, marker(1)), 2, marker(2)), 3, marker(3));
            (forall c :: c in r <==> c in reg || exists n :: 1 <= n <= 3 && NodeNames(marker, n, c)) &&
            (forall c :: c in r ==>
              if exists n :: 1 <= n <= 3 && NodeNames(marker, n, c) then
                1 <= r[c] <= 3 && NodeNames(marker, r[c], c) &&
                forall n :: r[c] < n <= 3 ==> !NodeNames(marker, n, c)
              else r[c] == reg[c])
  {
    var r1 := GetPath(reg, 1, marker(1));
    var r2 := GetPath(r1, 2, marker(2));
    var r := GetPath(r2, 3, marker(3));
    forall c ensures c in r <==> c in reg || exists n :: 1 <= n <= 3 && NodeNames(marker, n, c)
    {
      assert c in r <==> c in reg || NodeNames(marker, 1, c) || NodeNames(marker, 2, c) || NodeNames(marker, 3, c);
      if exists n :: 1 <= n <= 3 && NodeNames(marker, n, c) {
        var n :| 1 <= n <= 3 && NodeNames(marker, n, c);
        assert n == 1 || n == 2 || n == 3;
      }
    }
  }

  /** Probing from scratch binds every channel to one of the three probed
      nodes, and binds nothing when no marker can be read. */
  lemma FreshProbe(marker: int -> Option<string>)
    ensures forall c :: c in InitLed(map[], marker) ==> InitLed(map[], marker)[c] in ProbedNodes
    ensures (forall n :: 1 <= n <= 3 ==> marker(n).None?) ==> InitLed(map[], marker) == map[]
  {
    var r := InitLed(map[], marker);
    forall c | c in r ensures r[c] in ProbedNodes {
      assert 1 <= r[c] <= 3;
      assert r[c] == ProbedNodes[r[c] - 1];
    }
  }
}
