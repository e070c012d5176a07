/**
 * Dynamic PDO mapping. Each PDO the robot uses is configured through a
 * fixed script of SDO writes: invalidate the PDO (bit 31 of its COB-ID),
 * zero its mapping count, write each mapping entry, restore the count and
 * write the COB-ID back without bit 31. The script is checked against a
 * model of the drive's object dictionary.
 */
module PdoMapping {
  import opened Bytes
  import opened Frames
  import opened Requests
  import Pdo

  /** One object mapped into a PDO: its dictionary address and its width in bits. */
  datatype MappedObject = MappedObject(index: u16, subindex: u8, bits: u8)

  /**
   * A PDO's configuration: its communication-parameter object (whose
   * sub-index 1 is the COB-ID), its mapping object (sub-index 0 is the
   * count, 1.. the entries), its COB-ID base and the mapped objects.
   */
  datatype PdoSetup = PdoSetup(commIndex: u16, mapIndex: u16, cobBase: nat, objects: seq<MappedObject>)

  const CobIdSub: u8 := 1
  const CountSub: u8 := 0
  /** Bit 31 of a PDO COB-ID entry: set while the PDO is invalid. */
  const PdoInvalid: nat := 0x8000_0000

  predicate ValidSetup(p: PdoSetup) {
    && p.commIndex != p.mapIndex
    && 1 <= |p.objects| < 0x100
    && p.cobBase + 0x100 <= PdoInvalid
  }

  /** RPDO2: target velocity (0x60FF, 32 bits) and mode of operation (0x6060, 8 bits). */
  const Rpdo2Setup := PdoSetup(0x1401, 0x1601, Rpdo2Base,
    [MappedObject(0x60FF, 0, 32), MappedObject(0x6060, 0, 8)])

  /** TPDO1: status word (0x6041, 16), position actual (0x6064, 32), torque actual (0x6077, 16). */
  const Tpdo1Setup := PdoSetup(0x1800, 0x1A00, Tpdo1Base,
    [MappedObject(0x6041, 0, 16), MappedObject(0x6064, 0, 32), MappedObject(0x6077, 0, 16)])

  /** TPDO2: velocity actual (0x606C, 32) and modes of operation display (0x6061, 8). */
  const Tpdo2Setup := PdoSetup(0x1801, 0x1A01, Tpdo2Base,
    [MappedObject(0x606C, 0, 32), MappedObject(0x6061, 0, 8)])

  /** A mapping entry: index in the high 16 bits, sub-index in the next 8, bit length in the low 8. */
  function MappingEntry(o: MappedObject): (e: u32)
    ensures e / 0x1_0000 == o.index && (e / 0x100) % 0x100 == o.subindex && e % 0x100 == o.bits
  {
    var low := o.subindex * 0x100 + o.bits;
    SplitHalfWord(o.index, low);
    SplitByte(o.subindex, o.bits);
    SplitByte(o.index * 0x100 + o.subindex, o.bits);
    assert o.index * 0x1_0000 + low == (o.index * 0x100 + o.subindex) * 0x100 + o.bits;
    o.index * 0x1_0000 + low
  }

  /** The writes of mapping entries `from`.. into sub-indices from+1.. */
  function EntryWrites(p: PdoSetup, from: nat): (cmds: seq<Command>)
    requires from <= |p.objects| < 0x100
    ensures |cmds| == |p.objects| - from
    ensures forall k :: 0 <= k < |cmds| ==>
              cmds[k] == SdoWrite(p.mapIndex, (from + k + 1) as u8, MappingEntry(p.objects[from + k]), 4)
    decreases |p.objects| - from
  {
    if from == |p.objects| then []
    else [SdoWrite(p.mapIndex, (from + 1) as u8, MappingEntry(p.objects[from]), 4)] + EntryWrites(p, from + 1)
  }

  /** The configuration script of one PDO for `node`. */
  function SetupScript(p: PdoSetup, node: u8): (cmds: seq<Command>)
    requires ValidSetup(p)
    ensures |cmds| == |p.objects| + 4
    ensures forall c <- cmds :: WellFormed(c) && c.SdoWrite?
  {
    [SdoWrite(p.commIndex, CobIdSub, PdoInvalid + p.cobBase + node, 4), SdoWrite(p.mapIndex, CountSub, 0, 1)]
    + EntryWrites(p, 0)
    + [SdoWrite(p.mapIndex, CountSub, |p.objects|, 1), SdoWrite(p.commIndex, CobIdSub, p.cobBase + node, 4)]
  }

  // ---------------------------------------------------------------------
  // The drive's object dictionary, as far as SDO writes change it

  type Dictionary = map<(u16, u8), u32>

  /** The dictionary after the writes among `cmds`, applied in order. */
  function ApplyWrites(d: Dictionary, cmds: seq<Command>): Dictionary
    decreases |cmds|
  {
    if |cmds| == 0 then d
    else
      var d' := if cmds[0].SdoWrite? then d[(cmds[0].index, cmds[0].subindex) := cmds[0].value] else d;
      ApplyWrites(d', cmds[1..])
  }

  /** No command among `cmds` writes the entry at `key`. */
  predicate Untouched(cmds: seq<Command>, key: (u16, u8)) {
    forall c <- cmds :: !(c.SdoWrite? && (c.index, c.subindex) == key)
  }

  lemma {:induction false} ApplyConcat(d: Dictionary, a: seq<Command>, b: seq<Command>)
    ensures ApplyWrites(d, a + b) == ApplyWrites(ApplyWrites(d, a), b)
    decreases |a|
  {
    if |a| == 0 {
      assert a + b == b;
    } else {
      var d' := if a[0].SdoWrite? then d[(a[0].index, a[0].subindex) := a[0].value] else d;
      assert (a + b)[0] == a[0];
      assert (a + b)[1..] == a[1..] + b;
      ApplyConcat(d', a[1..], b);
    }
  }

  /** Writes elsewhere leave an entry as it was. */
  lemma {:induction false} ApplyUntouched(d: Dictionary, cmds: seq<Command>, key: (u16, u8))
    requires Untouched(cmds, key)
    ensures key in d ==> key in ApplyWrites(d, cmds) && ApplyWrites(d, cmds)[key] == d[key]
    ensures key !in d ==> key !in ApplyWrites(d, cmds)
    decreases |cmds|
  {
    if |cmds| > 0 {
      var d' := if cmds[0].SdoWrite? then d[(cmds[0].index, cmds[0].subindex) := cmds[0].value] else d;
      assert cmds[0] in cmds;
      assert forall c <- cmds[1..] :: c in cmds;
      ApplyUntouched(d', cmds[1..], key);
    }
  }

  /** After the entry writes from `from` on, sub-index k + 1 holds the entry of object k. */
  lemma {:induction false} EntryWritesEffect(d: Dictionary, p: PdoSetup, from: nat, k: nat)
    requires from <= k < |p.objects| < 0x100
    ensures (p.mapIndex, (k + 1) as u8) in ApplyWrites(d, EntryWrites(p, from))
    ensures ApplyWrites(d, EntryWrites(p, from))[(p.mapIndex, (k + 1) as u8)] == MappingEntry(p.objects[k])
    decreases |p.objects| - from
  {
    var w := EntryWrites(p, from);
    var d' := d[(p.mapIndex, (from + 1) as u8) := MappingEntry(p.objects[from])];
    var rest := EntryWrites(p, from + 1);
    assert w[1..] == rest;
    assert ApplyWrites(d, w) == ApplyWrites(d', rest);
    if k == from {
      assert Untouched(rest, (p.mapIndex, (from + 1) as u8));
      ApplyUntouched(d', rest, (p.mapIndex, (from + 1) as u8));
    } else {
      EntryWritesEffect(d', p, from + 1, k);
    }
  }

  lemma ApplyTwoWrites(d: Dictionary, c1: Command, c2: Command)
    requires c1.SdoWrite? && c2.SdoWrite?
    ensures ApplyWrites(d, [c1, c2])
      == d[(c1.index, c1.subindex) := c1.value][(c2.index, c2.subindex) := c2.value]
  {
    var d1 := d[(c1.index, c1.subindex) := c1.value];
    var d2 := d1[(c2.index, c2.subindex) := c2.value];
    assert [c1, c2][1..] == [c2];
    assert ApplyWrites(d, [c1, c2]) == ApplyWrites(d1, [c2]);
    assert [c2][1..] == [];
    assert ApplyWrites(d1, [c2]) == ApplyWrites(d2, []);
  }

  /** Entry writes touch neither the COB-ID nor the mapping count. */
  lemma EntryWritesUntouched(p: PdoSetup, from: nat)
    requires from <= |p.objects| < 0x100 && p.commIndex != p.mapIndex
    ensures Untouched(EntryWrites(p, from), (p.commIndex, CobIdSub))
    ensures Untouched(EntryWrites(p, from), (p.mapIndex, CountSub))
  {
  }

  /** Sub-index k + 1 of the mapping object holds the entry of object k. */
  predicate HoldsEntry(d: Dictionary, p: PdoSetup, k: nat)
    requires k < |p.objects| < 0x100
  {
    (p.mapIndex, (k + 1) as u8) in d && d[(p.mapIndex, (k + 1) as u8)] == MappingEntry(p.objects[k])
  }

  /** Every entry of the mapping object holds its object. */
  predicate HoldsEntries(d: Dictionary, p: PdoSetup)
    requires |p.objects| < 0x100
  {
    forall k :: 0 <= k < |p.objects| ==> HoldsEntry(d, p, k)
  }

  /**
   * The script leaves the PDO valid on COB-ID base + node, with its count
   * equal to the number of mapped objects and entry k + 1 describing object k.
   */
  lemma SetupScriptEffect(d: Dictionary, p: PdoSetup, node: u8)
    requires ValidSetup(p)
    ensures var d' := ApplyWrites(d, SetupScript(p, node));
      && (p.commIndex, CobIdSub) in d' && d'[(p.commIndex, CobIdSub)] == p.cobBase + node
      && (p.mapIndex, CountSub) in d' && d'[(p.mapIndex, CountSub)] == |p.objects|
      && HoldsEntries(d', p)
  {
    var head := [SdoWrite(p.commIndex, CobIdSub, PdoInvalid + p.cobBase + node, 4), SdoWrite(p.mapIndex, CountSub, 0, 1)];
    var entries := EntryWrites(p, 0);
    var tail := [SdoWrite(p.mapIndex, CountSub, |p.objects|, 1), SdoWrite(p.commIndex, CobIdSub, p.cobBase + node, 4)];
    ApplyConcat(d, head + entries, tail);
    ApplyConcat(d, head, entries);
    var d1 := ApplyWrites(d, head);
    var d2 := ApplyWrites(d1, entries);
    assert tail == [tail[0], tail[1]];
    assert SetupScript(p, node) == head + entries + tail;
    var d3 := ApplyWrites(d2, tail);
    assert ApplyWrites(d, SetupScript(p, node)) == d3;
    ApplyTwoWrites(d2, tail[0], tail[1]);
    EntriesHold(d1, p);
    TailKeepsEntries(d2, p, node);
    assert HoldsEntries(d3, p);
  }

  /** The entry writes leave every entry holding its object. */
  lemma EntriesHold(d: Dictionary, p: PdoSetup)
    requires |p.objects| < 0x100
    ensures HoldsEntries(ApplyWrites(d, EntryWrites(p, 0)), p)
  {
    var d' := ApplyWrites(d, EntryWrites(p, 0));
    forall k | 0 <= k < |p.objects| ensures HoldsEntry(d', p, k) {
      EntryWritesEffect(d, p, 0, k);
    }
  }

  /** Restoring the count and the COB-ID leaves the entries alone. */
  lemma TailKeepsEntries(d: Dictionary, p: PdoSetup, node: u8)
    requires ValidSetup(p) && HoldsEntries(d, p)
    ensures HoldsEntries(d[(p.mapIndex, CountSub) := |p.objects|][(p.commIndex, CobIdSub) := p.cobBase + node], p)
  {
    var d' := d[(p.mapIndex, CountSub) := |p.objects|][(p.commIndex, CobIdSub) := p.cobBase + node];
    forall k | 0 <= k < |p.objects| ensures HoldsEntry(d', p, k) {
      assert HoldsEntry(d, p, k);
      var key := (p.mapIndex, (k + 1) as u8);
      assert key != (p.mapIndex, CountSub);
      assert key != (p.commIndex, CobIdSub);
    }
  }

  /**
   * The CiA 301 mapping procedure: every mapping entry is written while the
   * PDO is invalid (bit 31 of its COB-ID set) and its mapping count is zero.
   */
  lemma SetupScriptFollowsProcedure(d: Dictionary, p: PdoSetup, node: u8)
    requires ValidSetup(p)
    ensures var s := SetupScript(p, node);
      forall i :: 0 <= i < |s| && s[i].SdoWrite? && s[i].index == p.mapIndex && s[i].subindex != CountSub ==>
        var before := ApplyWrites(d, s[..i]);
        && (p.commIndex, CobIdSub) in before && before[(p.commIndex, CobIdSub)] >= PdoInvalid
        && (p.mapIndex, CountSub) in before && before[(p.mapIndex, CountSub)] == 0
  {
    var s := SetupScript(p, node);
    var head := [SdoWrite(p.commIndex, CobIdSub, PdoInvalid + p.cobBase + node, 4), SdoWrite(p.mapIndex, CountSub, 0, 1)];
    var entries := EntryWrites(p, 0);
    var d1 := ApplyWrites(d, head);
    ApplyTwoWrites(d, head[0], head[1]);
    assert head == [head[0], head[1]];
    forall i | 0 <= i < |s| && s[i].SdoWrite? && s[i].index == p.mapIndex && s[i].subindex != CountSub
      ensures var before := ApplyWrites(d, s[..i]);
        && (p.commIndex, CobIdSub) in before && before[(p.commIndex, CobIdSub)] >= PdoInvalid
        && (p.mapIndex, CountSub) in before && before[(p.mapIndex, CountSub)] == 0
    {
      assert 2 <= i < 2 + |entries|;
      assert s[..i] == head + entries[..i - 2];
      ApplyConcat(d, head, entries[..i - 2]);
      EntryWritesUntouched(p, 0);
      assert forall c <- entries[..i - 2] :: c in entries;
      ApplyUntouched(d1, entries[..i - 2], (p.commIndex, CobIdSub));
      ApplyUntouched(d1, entries[..i - 2], (p.mapIndex, CountSub));
    }
  }

  // ---------------------------------------------------------------------
  // Agreement with the PDO codecs

  function TotalBits(objects: seq<MappedObject>): nat {
    if |objects| == 0 then 0 else objects[0].bits + TotalBits(objects[1..])
  }

  /**
   * The mappings fit the codecs: TPDO1 spans 8 bytes with the position at
   * byte 2 and the torque at byte 6; TPDO2 and RPDO2 span the 5 bytes the
   * codecs read and build.
   */
  lemma MappingsMatchCodecs(node: u8, velocity: i32, mode: i8)
    ensures TotalBits(Tpdo1Setup.objects) == 8 * 8
    ensures TotalBits(Tpdo1Setup.objects[..1]) == 8 * 2 && TotalBits(Tpdo1Setup.objects[..2]) == 8 * 6
    ensures TotalBits(Tpdo2Setup.objects) == 8 * 5 && TotalBits(Tpdo2Setup.objects[..1]) == 8 * 4
    ensures TotalBits(Rpdo2Setup.objects) == 8 * |Pdo.BuildRpdo2(node, velocity, mode).data|
  {
    assert Tpdo1Setup.objects[..1] == [MappedObject(0x6041, 0, 16)];
    assert Tpdo1Setup.objects[..2] == [MappedObject(0x6041, 0, 16), MappedObject(0x6064, 0, 32)];
    assert Tpdo2Setup.objects[..1] == [MappedObject(0x606C, 0, 32)];
  }
}
