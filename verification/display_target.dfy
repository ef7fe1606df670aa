/**
 Display target resolution: the connected connector, its largest mode, and
 the encoder (hence CRTC) the connector is currently bound to.
 */
module DisplayTarget {
  import opened Common
  import opened DrmMode
  import opened Search

  /** The device handle and the output the buffer is sized for. */
  datatype Target = Target(fd: int32, mode: ModeInfo, crtcId: uint32, connectorId: uint32)

  predicate IsConnected(c: Connector)
  {
    c.connection == Connected
  }

  /**
   Connector search: stops at the first connected connector in enumeration
   order, releasing every connector before it; fails exactly when none is
   connected, in particular on an empty list.
   */
  function FindConnector(conns: seq<Connector>): (r: Scan)
    ensures r.found.Some? ==>
      r.found.value < |conns| && conns[r.found.value].connection == Connected
    ensures r.found.Some? ==>
      forall j :: 0 <= j < r.found.value ==> conns[j].connection != Connected
    ensures r.found.None? <==> forall j :: 0 <= j < |conns| ==> conns[j].connection != Connected
    ensures |r.released| == (if r.found.Some? then r.found.value else |conns|)
    ensures forall i :: 0 <= i < |r.released| ==> r.released[i] == i
  {
    FirstMatch(conns, IsConnected)
  }

  /**
   Encoder search: stops at the first encoder whose id is `encoderId`,
   releasing every encoder before it; fails exactly when no id matches.
   */
  function FindEncoder(encs: seq<Encoder>, encoderId: uint32): (r: Scan)
    ensures r.found.Some? ==>
      r.found.value < |encs| && encs[r.found.value].encoderId == encoderId
    ensures r.found.Some? ==>
      forall j :: 0 <= j < r.found.value ==> encs[j].encoderId != encoderId
    ensures r.found.None? <==> forall j :: 0 <= j < |encs| ==> encs[j].encoderId != encoderId
    ensures |r.released| == (if r.found.Some? then r.found.value else |encs|)
    ensures forall i :: 0 <= i < |r.released| ==> r.released[i] == i
  {
    FirstMatch(encs, (e: Encoder) => e.encoderId == encoderId)
  }

  /** Area of the mode chosen so far; the search's accumulator starts at 0. */
  function BestArea(modes: seq<ModeInfo>, best: Option<nat>): nat
  {
    if best.Some? && best.value < |modes| then Area(modes[best.value]) else 0
  }

  /**
   Mode search, one step per mode in list order: a mode replaces the current
   choice only when its area is strictly larger than the area kept so far,
   which starts at 0. The result is a mode of maximum, positive area with no
   earlier mode of the same area; the search fails exactly when every mode
   has area 0, which includes the empty list.
   */
  function SelectMode(modes: seq<ModeInfo>): (r: Option<nat>)
    ensures r.Some? ==> r.value < |modes| && Area(modes[r.value]) > 0
    ensures r.Some? ==> forall j :: 0 <= j < |modes| ==> Area(modes[j]) <= Area(modes[r.value])
    ensures r.Some? ==> forall j :: 0 <= j < r.value ==> Area(modes[j]) < Area(modes[r.value])
    ensures r.None? <==> forall j :: 0 <= j < |modes| ==> Area(modes[j]) == 0
  {
    if |modes| == 0 then None
    else
      var n := |modes| - 1;
      var prev := SelectMode(modes[..n]);
      assert forall j :: 0 <= j < n ==> modes[..n][j] == modes[j];
      if Area(modes[n]) > BestArea(modes[..n], prev) then Some(n) else prev
  }

  /** Declarative reading of the mode rule: largest area, earliest among equals, and nonzero. */
  ghost predicate IsPreferredMode(modes: seq<ModeInfo>, k: nat)
  {
    && k < |modes|
    && Area(modes[k]) > 0
    && (forall j :: 0 <= j < |modes| ==> Area(modes[j]) <= Area(modes[k]))
    && (forall j :: 0 <= j < k ==> Area(modes[j]) < Area(modes[k]))
  }

  /** The mode search picks `k` if and only if `k` is the preferred mode. */
  lemma SelectModeIsPreferred(modes: seq<ModeInfo>, k: nat)
    ensures SelectMode(modes) == Some(k) <==> IsPreferredMode(modes, k)
  {
    if IsPreferredMode(modes, k) {
      var r := SelectMode(modes);
      assert r.Some? by {
        assert Area(modes[k]) != 0;
      }
      assert !(r.value < k) by {
        assert Area(modes[k]) <= Area(modes[r.value]);
      }
      assert !(r.value > k) by {
        assert Area(modes[r.value]) <= Area(modes[k]);
      }
    }
  }

  /** The mode search written as the program's loop, with its running `area` accumulator. */
  method SelectModeLoop(modes: seq<ModeInfo>) returns (best: Option<nat>)
    ensures best == SelectMode(modes)
  {
    best := None;
    var area := 0;
    var i := 0;
    while i < |modes|
      invariant 0 <= i <= |modes|
      invariant best == SelectMode(modes[..i])
      invariant area == BestArea(modes[..i], best)
    {
      assert modes[..i + 1][..i] == modes[..i];
      var currentArea := Area(modes[i]);
      if currentArea > area {
        best := Some(i);
        area := currentArea;
      }
      i := i + 1;
    }
    assert modes[..|modes|] == modes;
  }

  /** Two connectors passed over, the third taken: the first two are released. */
  lemma ThirdConnectorChosen(a: Connector, b: Connector, c: Connector)
    requires a.connection != Connected && b.connection != Connected && c.connection == Connected
    ensures FindConnector([a, b, c]) == Scan(Some(2), [0, 1])
  {
    var conns := [a, b, c];
    var r := FindConnector(conns);
    assert conns[2].connection == Connected;
    assert r.found == Some(2) by {
      assert conns[0].connection != Connected && conns[1].connection != Connected;
    }
    assert r.released[0] == 0 && r.released[1] == 1;
  }

  /** A portrait 1080x1920 mode ties with 1920x1080 and, coming later, does not replace it. */
  lemma TieKeepsEarlierMode(hz: uint32)
    ensures SelectMode([ModeInfo(1280, 720, hz), ModeInfo(1920, 1080, hz), ModeInfo(1080, 1920, hz)]) == Some(1)
  {
    var modes := [ModeInfo(1280, 720, hz), ModeInfo(1920, 1080, hz), ModeInfo(1080, 1920, hz)];
    SelectModeIsPreferred(modes, 1);
  }
}
