/**
 * Process Data Objects: the two telemetry PDOs each drive transmits
 * (TPDO1: status word, actual position, actual torque; TPDO2: actual
 * velocity, mode display), the command PDO the robot transmits (RPDO2:
 * target velocity, mode of operation), and the per-node store holding the
 * most recent telemetry.
 */
module Pdo {
  import opened Wrappers
  import opened Bytes
  import opened Frames

  datatype Tpdo1 = Tpdo1(statusWord: u16, actualPosition: i32, actualTorque: i16)
  datatype Tpdo2 = Tpdo2(actualVelocity: i32, modeDisplay: u8)

  /** The all-zero snapshots, used for missing fields and for nodes never heard from. */
  const NoTpdo1 := Tpdo1(0, 0, 0)
  const NoTpdo2 := Tpdo2(0, 0)

  /** Highest COB-ID of each telemetry range (base plus the largest 7-bit node id). */
  const Tpdo1Last: nat := 0x1FF
  const Tpdo2Last: nat := 0x2FF

  /**
   * The 8-byte TPDO1 payload a drive sends with the mapping this robot
   * configures: status word (2 bytes), position (4 bytes), torque (2 bytes).
   */
  function EncodeTpdo1(t: Tpdo1): (data: seq<u8>)
    ensures |data| == 8
  {
    Pow256Values();
    LeBytes(t.statusWord, 2) + LeBytes(Unsigned(t.actualPosition, 4), 4)
      + LeBytes(Unsigned(t.actualTorque, 2), 2)
  }

  /**
   * Decoding a TPDO1 payload. Each field is read only when the payload is
   * long enough to hold it and is zero otherwise; a present field is
   * exactly the little-endian reading of its bytes.
   */
  function DecodeTpdo1(data: seq<u8>): (t: Tpdo1)
    ensures |data| < 2 ==> t.statusWord == 0
    ensures |data| < 6 ==> t.actualPosition == 0
    ensures |data| < 8 ==> t.actualTorque == 0
    ensures |data| >= 2 ==> LeBytes(t.statusWord, 2) == data[0..2]
    ensures |data| >= 6 ==> LeBytes(Unsigned(t.actualPosition, 4), 4) == data[2..6]
    ensures |data| >= 8 ==> LeBytes(Unsigned(t.actualTorque, 2), 2) == data[6..8]
  {
    Pow256Values();
    Tpdo1(
      if |data| >= 2 then LeBytesOfValue(data[0..2]); LeValue(data[0..2]) else 0,
      if |data| >= 6 then SignedLe(data[2..6]) else 0,
      if |data| >= 8 then SignedLe(data[6..8]) else 0)
  }

  /** Status word bits 0-3, 5 and 6 read 0b010_0111: the drive is in Operation Enabled. */
  predicate IsOperationEnabled(t: Tpdo1) {
    Bits(t.statusWord) & 0x6F == 0x27
  }

  /** Status word bit 3 (fault) is set. */
  predicate HasFault(t: Tpdo1) {
    Bits(t.statusWord) & 0x08 != 0
  }

  /** A drive's TPDO1 payload decodes to exactly the snapshot it was built from. */
  lemma Tpdo1RoundTrip(t: Tpdo1)
    ensures DecodeTpdo1(EncodeTpdo1(t)) == t
  {
    Pow256Values();
    var data := EncodeTpdo1(t);
    assert data[0..2] == LeBytes(t.statusWord, 2);
    assert data[2..6] == LeBytes(Unsigned(t.actualPosition, 4), 4);
    assert data[6..8] == LeBytes(Unsigned(t.actualTorque, 2), 2);
  }

  /** A full payload is determined by its decoding: re-encoding gives back its first 8 bytes. */
  lemma Tpdo1Reencode(data: seq<u8>)
    requires |data| >= 8
    ensures EncodeTpdo1(DecodeTpdo1(data)) == data[..8]
  {
    var t := DecodeTpdo1(data);
    assert data[..8] == data[0..2] + data[2..6] + data[6..8];
  }

  /** The worked example: 27 06 64 00 00 00 05 00 is status 0x0627, position 100, torque 5. */
  lemma Tpdo1Example()
    ensures DecodeTpdo1([0x27, 0x06, 0x64, 0x00, 0x00, 0x00, 0x05, 0x00]) == Tpdo1(0x0627, 100, 5)
    ensures IsOperationEnabled(Tpdo1(0x0627, 100, 5))
  {
    Pow256Values();
    var t := Tpdo1(0x0627, 100, 5);
    assert EncodeTpdo1(t) == [0x27, 0x06, 0x64, 0x00, 0x00, 0x00, 0x05, 0x00];
    Tpdo1RoundTrip(t);
  }

  /**
   * Decoding a TPDO2 payload: with at least 5 bytes, the velocity is the
   * little-endian signed reading of bytes 0-3 and the mode display is byte 4;
   * a shorter payload decodes to all zeros.
   */
  function DecodeTpdo2(data: seq<u8>): (t: Tpdo2)
    ensures |data| < 5 ==> t == NoTpdo2
    ensures |data| >= 5 ==> LeBytes(Unsigned(t.actualVelocity, 4), 4) == data[0..4]
    ensures |data| >= 5 ==> t.modeDisplay == data[4]
  {
    Pow256Values();
    if |data| >= 5 then
      Tpdo2(SignedLe(data[0..4]), data[4])
    else
      NoTpdo2
  }

  /**
   * The RPDO2 frame carrying a target velocity and a mode of operation: COB-ID
   * 0x300 plus the node id, 5 data bytes. Read back with the TPDO2 layout it
   * yields the same velocity and the mode as an unsigned byte.
   */
  function BuildRpdo2(node: u8, velocity: i32, mode: i8): (f: Frame)
    ensures f.cobId == Rpdo2Base + node
    ensures |f.data| == 5
    ensures DecodeTpdo2(f.data) == Tpdo2(velocity, Unsigned(mode, 1))
  {
    Pow256Values();
    var data := LeBytes(Unsigned32(velocity), 4) + [Unsigned(mode, 1)];
    assert data[0..4] == LeBytes(Unsigned32(velocity), 4);
    Frame(Rpdo2Base + node, data)
  }

  /** Sending RPDO2: one frame when connected, nothing otherwise. */
  function SendRpdo2(connected: bool, node: u8, velocity: i32, mode: i8): (r: Sent<bool>)
    ensures r.result <==> connected
    ensures connected ==> r.frames == [BuildRpdo2(node, velocity, mode)]
    ensures !connected ==> r.frames == []
  {
    if connected then Sent([BuildRpdo2(node, velocity, mode)], true) else Sent([], false)
  }

  /**
   * Latest telemetry per node and the time each entry was last refreshed.
   * Each update replaces a node's whole record.
   */
  datatype Telemetry = Telemetry(
    tpdo1: map<u8, Tpdo1>, tpdo2: map<u8, Tpdo2>,
    tpdo1Time: map<u8, int>, tpdo2Time: map<u8, int>)

  const NoTelemetry := Telemetry(map[], map[], map[], map[])

  /** A node's latest TPDO1, or the all-zero snapshot if none has arrived. */
  function LatestTpdo1(s: Telemetry, node: u8): Tpdo1 {
    if node in s.tpdo1 then s.tpdo1[node] else NoTpdo1
  }

  /** A node's latest TPDO2, or the all-zero snapshot if none has arrived. */
  function LatestTpdo2(s: Telemetry, node: u8): Tpdo2 {
    if node in s.tpdo2 then s.tpdo2[node] else NoTpdo2
  }

  /** The notification raised for each telemetry update. */
  datatype Notice = Tpdo1Received(node: u8, tpdo1: Tpdo1) | Tpdo2Received(node: u8, tpdo2: Tpdo2)

  datatype Ingested = Ingested(store: Telemetry, notice: Option<Notice>)

  predicate IsTpdo1CobId(cobId: nat) {
    Tpdo1Base <= cobId <= Tpdo1Last
  }

  predicate IsTpdo2CobId(cobId: nat) {
    Tpdo2Base <= cobId <= Tpdo2Last
  }

  /**
   * Routing one received frame. A COB-ID in 0x180..0x1FF refreshes only the
   * TPDO1 entry (and its time) of node cobId - 0x180, one in 0x280..0x2FF
   * only the TPDO2 entry of node cobId - 0x280; any other frame changes
   * nothing and raises no notice.
   */
  function ProcessPdoMessage(s: Telemetry, f: Frame, now: int): (r: Ingested)
    ensures forall n: u8 ::
              LatestTpdo1(r.store, n) == (if IsTpdo1CobId(f.cobId) && n == f.cobId - Tpdo1Base then DecodeTpdo1(f.data) else LatestTpdo1(s, n))
    ensures forall n: u8 ::
              LatestTpdo2(r.store, n) == (if IsTpdo2CobId(f.cobId) && n == f.cobId - Tpdo2Base then DecodeTpdo2(f.data) else LatestTpdo2(s, n))
    ensures IsTpdo1CobId(f.cobId) ==>
      r.store.tpdo1Time == s.tpdo1Time[f.cobId - Tpdo1Base := now] && r.store.tpdo2Time == s.tpdo2Time
    ensures IsTpdo2CobId(f.cobId) ==>
      r.store.tpdo2Time == s.tpdo2Time[f.cobId - Tpdo2Base := now] && r.store.tpdo1Time == s.tpdo1Time
    ensures IsTpdo1CobId(f.cobId) ==> r.notice == Some(Tpdo1Received(f.cobId - Tpdo1Base, DecodeTpdo1(f.data)))
    ensures IsTpdo2CobId(f.cobId) ==> r.notice == Some(Tpdo2Received(f.cobId - Tpdo2Base, DecodeTpdo2(f.data)))
    ensures !IsTpdo1CobId(f.cobId) && !IsTpdo2CobId(f.cobId) ==> r == Ingested(s, None)
  {
    if IsTpdo1CobId(f.cobId) then
      var node: u8 := f.cobId - Tpdo1Base;
      var t := DecodeTpdo1(f.data);
      Ingested(s.(tpdo1 := s.tpdo1[node := t], tpdo1Time := s.tpdo1Time[node := now]),
               Some(Tpdo1Received(node, t)))
    else if IsTpdo2CobId(f.cobId) then
      var node: u8 := f.cobId - Tpdo2Base;
      var t := DecodeTpdo2(f.data);
      Ingested(s.(tpdo2 := s.tpdo2[node := t], tpdo2Time := s.tpdo2Time[node := now]),
               Some(Tpdo2Received(node, t)))
    else
      Ingested(s, None)
  }

  /** The store after a run of received frames, each with its arrival time. */
  function IngestAll(s: Telemetry, frames: seq<(Frame, int)>): Telemetry
    decreases |frames|
  {
    if frames == [] then s
    else IngestAll(ProcessPdoMessage(s, frames[0].0, frames[0].1).store, frames[1..])
  }

  /**
   * A node none of whose TPDO frames has arrived reads as the all-zero
   * snapshots, however many frames for other nodes have been received.
   */
  lemma {:induction false} UnheardNodeReadsZero(frames: seq<(Frame, int)>, node: u8)
    requires forall i :: 0 <= i < |frames| ==>
      frames[i].0.cobId != Tpdo1Base + node && frames[i].0.cobId != Tpdo2Base + node
    ensures LatestTpdo1(IngestAll(NoTelemetry, frames), node) == Tpdo1(0, 0, 0)
    ensures LatestTpdo2(IngestAll(NoTelemetry, frames), node) == Tpdo2(0, 0)
  {
    UnheardNodeKeeps(NoTelemetry, frames, node);
  }

  lemma {:induction false} UnheardNodeKeeps(s: Telemetry, frames: seq<(Frame, int)>, node: u8)
    requires forall i :: 0 <= i < |frames| ==>
      frames[i].0.cobId != Tpdo1Base + node && frames[i].0.cobId != Tpdo2Base + node
    ensures LatestTpdo1(IngestAll(s, frames), node) == LatestTpdo1(s, node)
    ensures LatestTpdo2(IngestAll(s, frames), node) == LatestTpdo2(s, node)
    decreases |frames|
  {
    if frames != [] {
      var s' := ProcessPdoMessage(s, frames[0].0, frames[0].1).store;
      assert LatestTpdo1(s', node) == LatestTpdo1(s, node);
      assert LatestTpdo2(s', node) == LatestTpdo2(s, node);
      UnheardNodeKeeps(s', frames[1..], node);
    }
  }

  /** A drive's TPDO1 frame makes its snapshot the node's latest, whatever the store held. */
  lemma ReceiveTpdo1(s: Telemetry, node: u8, t: Tpdo1, now: int)
    requires node < 0x80
    ensures LatestTpdo1(ProcessPdoMessage(s, Frame(Tpdo1Base + node, EncodeTpdo1(t)), now).store, node) == t
  {
    Tpdo1RoundTrip(t);
  }
}
