/**
 * CAN frames as the CANopen stack sees them, the COB-ID layout of the
 * predefined connection set, and the NMT service frame.
 */
module Frames {
  import opened Bytes

  /** One CAN frame: an identifier (COB-ID) and up to eight data bytes. */
  datatype Frame = Frame(cobId: nat, data: seq<u8>)

  /** The COB-ID bases; a node's own COB-ID is the base plus its node id. */
  const NmtCobId: nat := 0x000
  const Tpdo1Base: nat := 0x180
  const Tpdo2Base: nat := 0x280
  const Rpdo2Base: nat := 0x300
  const SdoResponseBase: nat := 0x580
  const SdoRequestBase: nat := 0x600

  /** NMT command specifiers the robot uses. */
  const NmtStartRemoteNode: u8 := 0x01
  const NmtResetCommunication: u8 := 0x81

  /**
   * The outcome of one call on the CAN interface: the frames it put on the
   * bus, in order, and the value it returned to its caller.
   */
  datatype Sent<T> = Sent(frames: seq<Frame>, result: T)

  /**
   * Sending an NMT command. Nothing is transmitted while the interface is
   * not connected; otherwise one frame on COB-ID 0 carries the command and
   * the addressed node.
   */
  function SendNmt(connected: bool, command: u8, node: u8): (r: Sent<bool>)
    ensures r.result <==> connected
    ensures |r.frames| == (if connected then 1 else 0)
    ensures forall f <- r.frames :: f.cobId == NmtCobId && f.data == [command, node]
  {
    if connected then Sent([Frame(NmtCobId, [command, node])], true) else Sent([], false)
  }
}
