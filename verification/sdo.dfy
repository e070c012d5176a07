/**
 * Expedited SDO transfers (section 7.2.4.3 of CiA 301): request framing,
 * classification of the server's replies, and the client's wait for the
 * reply, modelled as a scan over the frames that arrive before the timeout.
 */
module Sdo {
  import opened Wrappers
  import opened Bytes
  import opened Frames

  const UploadRequest: u8 := 0x40
  const DownloadConfirm: u8 := 0x60
  const AbortTransfer: u8 := 0x80

  /**
   * The command byte of an expedited download (write) request. CiA 301 puts
   * client command 1 in bits 5-7, the number of unused data bytes in bits
   * 2-3 and sets the expedited and size-indicated bits 0-1; only the sizes
   * 1, 2 and 4 are accepted.
   */
  function WriteCommand(size: nat): (cmd: Option<u8>)
    ensures cmd.Some? <==> size in {1, 2, 4}
    ensures cmd.Some? ==> cmd.value == 0x20 + 4 * (4 - size) + 0x03
  {
    if size == 1 then Some(0x2F)
    else if size == 2 then Some(0x2B)
    else if size == 4 then Some(0x23)
    else None
  }

  /** The data size announced by a download or upload-response command byte. */
  function ExpeditedSize(cmd: u8): (n: nat)
    ensures n <= 4
    ensures cmd == 0x4F ==> n == 1
    ensures cmd == 0x4B ==> n == 2
    ensures cmd == 0x43 ==> n == 4
  {
    4 - (cmd / 4) % 4
  }

  /** The 8 request bytes: command, index (LE), subindex, 4 data bytes (LE). */
  function RequestPayload(cmd: u8, index: u16, sub: u8, data: u32): (p: seq<u8>)
    ensures |p| == 8
  {
    Pow256Values();
    [cmd] + LeBytes(index, 2) + [sub] + LeBytes(data, 4)
  }

  /** What an SDO server reads out of a request frame. */
  datatype Access =
    | Download(index: u16, subindex: u8, data: u32, size: nat)
    | Upload(index: u16, subindex: u8)

  datatype Request = Request(node: u8, access: Access)

  /** The server-side reading of a request frame on COB-ID 0x600 + node. */
  function ParseRequest(f: Frame): Option<Request> {
    Pow256Values();
    if !(SdoRequestBase <= f.cobId < SdoRequestBase + 0x100) || |f.data| != 8 then None
    else
      var node: u8 := f.cobId - SdoRequestBase;
      var index: u16 := LeValue(f.data[1..3]);
      var sub := f.data[3];
      var cmd := f.data[0];
      if cmd == UploadRequest then Some(Request(node, Upload(index, sub)))
      else if cmd in {0x2F, 0x2B, 0x23} then
        Some(Request(node, Download(index, sub, LeValue(f.data[4..8]), ExpeditedSize(cmd))))
      else None
  }

  lemma RequestPayloadFields(cmd: u8, index: u16, sub: u8, data: u32)
    ensures var p := RequestPayload(cmd, index, sub, data);
      p[0] == cmd && LeValue(p[1..3]) == index && p[3] == sub && LeValue(p[4..8]) == data
  {
    Pow256Values();
    var p := RequestPayload(cmd, index, sub, data);
    assert p[1..3] == LeBytes(index, 2);
    assert p[4..8] == LeBytes(data, 4);
  }

  /**
   * The write request frame. A size other than 1, 2 or 4 produces no frame.
   * Otherwise the frame goes to COB-ID 0x600 + node and a server reads back
   * exactly the index, subindex, data and size asked for. All four data
   * bytes are sent, whatever the size.
   */
  function WriteRequest(node: u8, index: u16, sub: u8, data: u32, size: nat): (f: Option<Frame>)
    ensures f.Some? <==> size in {1, 2, 4}
    ensures f.Some? ==> f.value.cobId == SdoRequestBase + node && |f.value.data| == 8
    ensures f.Some? ==> ParseRequest(f.value) == Some(Request(node, Download(index, sub, data, size)))
  {
    match WriteCommand(size)
    case None => None
    case Some(cmd) =>
      RequestPayloadFields(cmd, index, sub, data);
      Some(Frame(SdoRequestBase + node, RequestPayload(cmd, index, sub, data)))
  }

  /** The read request frame: command 0x40, the object address and four zero bytes. */
  function ReadRequest(node: u8, index: u16, sub: u8): (f: Frame)
    ensures f.cobId == SdoRequestBase + node && |f.data| == 8
    ensures f.data[4..] == [0, 0, 0, 0]
    ensures ParseRequest(f) == Some(Request(node, Upload(index, sub)))
  {
    RequestPayloadFields(UploadRequest, index, sub, 0);
    Frame(SdoRequestBase + node, RequestPayload(UploadRequest, index, sub, 0))
  }

  /** The worked example: controlword 0x6040 := 0x0F as 2 bytes is 2B 40 60 00 0F 00 00 00. */
  lemma WriteRequestExample(node: u8)
    ensures WriteRequest(node, 0x6040, 0, 0x0F, 2)
      == Some(Frame(SdoRequestBase + node, [0x2B, 0x40, 0x60, 0x00, 0x0F, 0x00, 0x00, 0x00]))
  {
    assert LeBytes(0x6040, 2) == [0x40, 0x60];
    assert LeBytes(0x0F, 4) == [0x0F, 0x00, 0x00, 0x00];
    assert RequestPayload(0x2B, 0x6040, 0, 0x0F) == [0x2B, 0x40, 0x60, 0x00, 0x0F, 0x00, 0x00, 0x00];
  }

  // ---------------------------------------------------------------------
  // Replies

  /** How the client treats one received frame while waiting for a write confirmation. */
  datatype WriteReply = WriteAborted | WriteConfirmed | WriteIgnored

  /**
   * Only frames on the expected COB-ID with at least one byte are looked at:
   * 0x80 is an abort, 0x60 a confirmation, and anything else is passed over.
   */
  function ClassifyWriteReply(expected: nat, f: Frame): (r: WriteReply)
    ensures r != WriteIgnored ==> f.cobId == expected && |f.data| > 0
    ensures f.cobId != expected || |f.data| == 0 ==> r == WriteIgnored
    ensures r == WriteAborted <==> f.cobId == expected && |f.data| > 0 && f.data[0] == AbortTransfer
    ensures r == WriteConfirmed <==> f.cobId == expected && |f.data| > 0 && f.data[0] == DownloadConfirm
  {
    if f.cobId != expected || |f.data| == 0 then WriteIgnored
    else if f.data[0] == AbortTransfer then WriteAborted
    else if f.data[0] == DownloadConfirm then WriteConfirmed
    else WriteIgnored
  }

  /**
   * Waiting for a write confirmation over the frames that arrive before the
   * timeout: the first frame that is not passed over decides; running out of
   * frames is a timeout and reports failure.
   */
  function AwaitWrite(expected: nat, frames: seq<Frame>): (ok: bool)
    ensures ok ==> exists i :: 0 <= i < |frames| && ClassifyWriteReply(expected, frames[i]) == WriteConfirmed
  {
    if |frames| == 0 then false
    else match ClassifyWriteReply(expected, frames[0])
      case WriteAborted => false
      case WriteConfirmed => true
      case WriteIgnored => AwaitWrite(expected, frames[1..])
  }

  /**
   * The write wait succeeds exactly when some frame confirms and every frame
   * before it was passed over (no earlier abort or confirmation).
   */
  lemma {:induction false} AwaitWriteSpec(expected: nat, frames: seq<Frame>)
    ensures AwaitWrite(expected, frames) <==>
      exists k :: 0 <= k < |frames| && ClassifyWriteReply(expected, frames[k]) == WriteConfirmed
        && forall j :: 0 <= j < k ==> ClassifyWriteReply(expected, frames[j]) == WriteIgnored
  {
    if |frames| > 0 {
      AwaitWriteSpec(expected, frames[1..]);
      var c := ClassifyWriteReply(expected, frames[0]);
      if c == WriteIgnored {
        if AwaitWrite(expected, frames) {
          var k :| 0 <= k < |frames[1..]| && ClassifyWriteReply(expected, frames[1..][k]) == WriteConfirmed
            && forall j :: 0 <= j < k ==> ClassifyWriteReply(expected, frames[1..][j]) == WriteIgnored;
          assert ClassifyWriteReply(expected, frames[k + 1]) == WriteConfirmed;
          assert forall j :: 0 <= j < k + 1 ==> ClassifyWriteReply(expected, frames[j]) == WriteIgnored by {
            forall j | 0 <= j < k + 1 ensures ClassifyWriteReply(expected, frames[j]) == WriteIgnored {
              if j > 0 { assert frames[j] == frames[1..][j - 1]; }
            }
          }
        } else {
          forall k | 0 <= k < |frames| && ClassifyWriteReply(expected, frames[k]) == WriteConfirmed
            ensures exists j :: 0 <= j < k && ClassifyWriteReply(expected, frames[j]) != WriteIgnored
          {
            assert k > 0;
            assert frames[1..][k - 1] == frames[k];
            var j :| 0 <= j < k - 1 && ClassifyWriteReply(expected, frames[1..][j]) != WriteIgnored;
            assert frames[j + 1] == frames[1..][j];
          }
        }
      }
    }
  }

  /** A frame on another COB-ID, wherever it arrives, does not change the outcome of a write wait. */
  lemma {:induction false} AwaitWriteSkipsForeign(expected: nat, before: seq<Frame>, f: Frame, after: seq<Frame>)
    requires f.cobId != expected
    ensures AwaitWrite(expected, before + [f] + after) == AwaitWrite(expected, before + after)
  {
    if |before| == 0 {
      assert before + [f] + after == [f] + after;
      assert ([f] + after)[1..] == after;
      assert before + after == after;
      assert ClassifyWriteReply(expected, f) == WriteIgnored;
    } else {
      AwaitWriteSkipsForeign(expected, before[1..], f, after);
      assert (before + [f] + after)[1..] == before[1..] + [f] + after;
      assert (before + after)[1..] == before[1..] + after;
    }
  }

  /** How the client treats one received frame while waiting for a read value. */
  datatype ReadReply = ReadAborted | ReadValue(value: u32) | ReadUnknown | ReadIgnored

  /**
   * Only frames on the expected COB-ID with at least one byte are looked at.
   * 0x80 is an abort; 0x4F, 0x4B and 0x43 carry 1, 2 or 4 data bytes from
   * offset 4, and a frame too short for its announced size is passed over;
   * any other command ends the wait without a value.
   */
  function ClassifyReadReply(expected: nat, f: Frame): (r: ReadReply)
    ensures r != ReadIgnored ==> f.cobId == expected && |f.data| > 0
    ensures r == ReadAborted <==> f.cobId == expected && |f.data| > 0 && f.data[0] == AbortTransfer
    ensures r.ReadValue? ==>
              && f.data[0] in {0x4F, 0x4B, 0x43}
              && 4 + ExpeditedSize(f.data[0]) <= |f.data|
              && LeBytes(r.value, ExpeditedSize(f.data[0])) == f.data[4..4 + ExpeditedSize(f.data[0])]
    ensures (f.cobId == expected && |f.data| > 0 && f.data[0] in {0x4F, 0x4B, 0x43}
             && 4 + ExpeditedSize(f.data[0]) <= |f.data|)
              ==> r.ReadValue? && r.value == LeValue(f.data[4..4 + ExpeditedSize(f.data[0])])
    ensures r == ReadUnknown <==>
      f.cobId == expected && |f.data| > 0 && f.data[0] !in {0x80, 0x4F, 0x4B, 0x43}
  {
    Pow256Values();
    if f.cobId != expected || |f.data| == 0 then ReadIgnored
    else
      var d := f.data;
      if d[0] == AbortTransfer then ReadAborted
      else if d[0] == 0x4F then
        if |d| >= 5 then LeBytesOfValue(d[4..5]); ReadValue(d[4]) else ReadIgnored
      else if d[0] == 0x4B then
        if |d| >= 6 then LeBytesOfValue(d[4..6]); ReadValue(LeValue(d[4..6])) else ReadIgnored
      else if d[0] == 0x43 then
        if |d| >= 8 then LeBytesOfValue(d[4..8]); ReadValue(LeValue(d[4..8])) else ReadIgnored
      else ReadUnknown
  }

  /** The value a deciding reply hands back to the caller: zero unless it carried data. */
  function ReplyValue(r: ReadReply): u32 {
    if r.ReadValue? then r.value else 0
  }

  /**
   * Waiting for a read value over the frames that arrive before the timeout:
   * the first frame that is not passed over decides; an abort, an unknown
   * command or a timeout all yield 0.
   */
  function AwaitRead(expected: nat, frames: seq<Frame>): (v: u32)
    ensures v != 0 ==> exists i :: 0 <= i < |frames| && ClassifyReadReply(expected, frames[i]) == ReadValue(v)
  {
    if |frames| == 0 then 0
    else
      var c := ClassifyReadReply(expected, frames[0]);
      if c == ReadIgnored then AwaitRead(expected, frames[1..]) else ReplyValue(c)
  }

  /** The read wait returns what the first deciding frame carries, or 0 if no frame decides. */
  lemma {:induction false} AwaitReadSpec(expected: nat, frames: seq<Frame>, k: nat)
    requires k <= |frames|
    requires forall j :: 0 <= j < k ==> ClassifyReadReply(expected, frames[j]) == ReadIgnored
    requires k < |frames| ==> ClassifyReadReply(expected, frames[k]) != ReadIgnored
    ensures AwaitRead(expected, frames) == if k < |frames| then ReplyValue(ClassifyReadReply(expected, frames[k])) else 0
  {
    if k > 0 {
      assert ClassifyReadReply(expected, frames[0]) == ReadIgnored;
      assert forall j :: 0 <= j < k - 1 ==> frames[1..][j] == frames[j + 1];
      AwaitReadSpec(expected, frames[1..], k - 1);
    }
  }

  /** The reply of a server that completes an expedited upload of `size` bytes. */
  function UploadResponse(node: u8, index: u16, sub: u8, value: nat, size: nat): (f: Frame)
    requires size in {1, 2, 4} && value < Pow256(size)
    ensures f.cobId == SdoResponseBase + node && |f.data| == 8
  {
    Pow256Values();
    Frame(SdoResponseBase + node, RequestPayload(0x40 + 4 * (4 - size) + 0x03, index, sub, value))
  }

  /**
   * An upload response read back by the client yields the value the server
   * sent, whatever foreign frames arrived before it.
   */
  lemma ReadUploadResponse(node: u8, index: u16, sub: u8, value: nat, size: nat, foreign: seq<Frame>, later: seq<Frame>)
    requires size in {1, 2, 4} && value < Pow256(size)
    requires forall g <- foreign :: g.cobId != SdoResponseBase + node
    ensures AwaitRead(SdoResponseBase + node, foreign + [UploadResponse(node, index, sub, value, size)] + later) == value
  {
    var f := UploadResponse(node, index, sub, value, size);
    var frames := foreign + [f] + later;
    UploadResponseReply(node, index, sub, value, size);
    assert frames[|foreign|] == f;
    assert forall j :: 0 <= j < |foreign| ==> frames[j] == foreign[j];
    AwaitReadSpec(SdoResponseBase + node, frames, |foreign|);
  }

  /** The client classifies an upload response as carrying the value the server sent. */
  lemma UploadResponseReply(node: u8, index: u16, sub: u8, value: nat, size: nat)
    requires size in {1, 2, 4} && value < Pow256(size)
    ensures ClassifyReadReply(SdoResponseBase + node, UploadResponse(node, index, sub, value, size)) == ReadValue(value)
  {
    Pow256Values();
    var d := UploadResponse(node, index, sub, value, size).data;
    assert d[0] == 0x40 + 4 * (4 - size) + 0x03;
    assert d[4..8] == LeBytes(value, 4);
    LeBytesPrefix(value, 4, size);
    assert d[4..4 + size] == LeBytes(value, size);
  }

  /**
   * A write transaction: nothing is sent while disconnected or for an
   * unsupported size, and the result is then false; otherwise the one
   * request frame is sent and the replies on COB-ID 0x580 + node decide.
   * Frames queued before the request was sent are discarded, so `replies`
   * holds only what arrives after it.
   */
  function WriteSdo(connected: bool, node: u8, index: u16, sub: u8, data: u32, size: nat,
                    replies: seq<Frame>): (r: Sent<bool>)
    ensures r.result ==> connected && size in {1, 2, 4}
    ensures !connected || size !in {1, 2, 4} ==> r == Sent([], false)
    ensures connected && size in {1, 2, 4} ==>
      r.frames == [WriteRequest(node, index, sub, data, size).value]
      && r.result == AwaitWrite(SdoResponseBase + node, replies)
  {
    if !connected then Sent([], false)
    else match WriteRequest(node, index, sub, data, size)
      case None => Sent([], false)
      case Some(f) => Sent([f], AwaitWrite(SdoResponseBase + node, replies))
  }

  /**
   * A read transaction: 0 without sending while disconnected; otherwise the
   * read request is sent and the replies on COB-ID 0x580 + node decide.
   */
  function ReadSdo(connected: bool, node: u8, index: u16, sub: u8, replies: seq<Frame>): (r: Sent<u32>)
    ensures !connected ==> r == Sent([], 0)
    ensures connected ==>
      r.frames == [ReadRequest(node, index, sub)] && r.result == AwaitRead(SdoResponseBase + node, replies)
  {
    if !connected then Sent([], 0)
    else Sent([ReadRequest(node, index, sub)], AwaitRead(SdoResponseBase + node, replies))
  }
}
