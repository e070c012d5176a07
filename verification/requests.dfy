/**
 * What a CiA 402 motor asks of the CAN interface: SDO writes and reads of
 * object-dictionary entries and RPDO2 velocity frames, and the frame each
 * request becomes for a given node.
 */
module Requests {
  import opened Wrappers
  import opened Bytes
  import opened Frames
  import Pdo
  import Sdo

  datatype Command =
    | SdoWrite(index: u16, subindex: u8, value: u32, size: nat)
    | SdoRead(index: u16, subindex: u8)
    | Rpdo2(velocity: i32, mode: i8)

  /** An SDO write must name a size the expedited protocol can carry. */
  predicate WellFormed(c: Command) {
    c.SdoWrite? ==> c.size in {1, 2, 4}
  }

  /**
   * The frame a command becomes for `node`. A well-formed SDO request is
   * read back by the server as the same access; an RPDO2 frame carries the
   * commanded velocity and mode.
   */
  function RequestFrame(node: u8, c: Command): (f: Option<Frame>)
    ensures f.Some? <==> WellFormed(c)
    ensures f.Some? && c.SdoWrite? ==>
      Sdo.ParseRequest(f.value) == Some(Sdo.Request(node, Sdo.Download(c.index, c.subindex, c.value, c.size)))
    ensures c.SdoRead? ==> Sdo.ParseRequest(f.value) == Some(Sdo.Request(node, Sdo.Upload(c.index, c.subindex)))
    ensures c.Rpdo2? ==>
      f.value.cobId == Rpdo2Base + node
      && Pdo.DecodeTpdo2(f.value.data) == Pdo.Tpdo2(c.velocity, Unsigned(c.mode, 1))
  {
    match c
    case SdoWrite(index, sub, value, size) => Sdo.WriteRequest(node, index, sub, value, size)
    case SdoRead(index, sub) => Some(Sdo.ReadRequest(node, index, sub))
    case Rpdo2(velocity, mode) => Some(Pdo.BuildRpdo2(node, velocity, mode))
  }
}
