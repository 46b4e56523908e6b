/** src/bit_utils.c: the header, data and checksum fields of a packet. */
module HeaderFields {
  import opened Words
  import opened BitStrings
  import opened BitUtils
  import opened ByteFields

  const CMD_BITS_NB: uint8 := 4
  const PARAM_BITS_NB: uint8 := 4
  const DATA_SIZE_BITS_NB: uint8 := 16
  const CHECKSUM_BITS_NB: uint8 := 8

  method InitPacket(p: array<uint8>, packetSize: nat)
    requires packetSize <= p.Length
    modifies p
    ensures forall i :: 0 <= i < packetSize ==> p[i] == 0
    ensures p[packetSize..] == old(p[packetSize..])
  {
    for i := 0 to packetSize
      invariant forall j :: 0 <= j < i ==> p[j] == 0
      invariant p[packetSize..] == old(p[packetSize..])
    {
      p[i] := 0;
    }
  }

  /** `write_cmd` followed by `write_param`. */
  method WriteCmdAndParam(p: array<uint8>, cmdNo: uint8, paramNo: uint8)
    requires 0 < p.Length && p[0] == 0 && cmdNo < 0x10 && paramNo < 0x10
    modifies p
    ensures p[..] == old(p[..])[0 := 0x10 * (cmdNo as int) + paramNo]
  {
    hide Bits, WriteBits;
    ghost var s := p[..];
    WriteBitValue(p, 0, 0, cmdNo, CMD_BITS_NB);
    ghost var t := p[..];
    WriteBitValue(p, 0, CMD_BITS_NB, paramNo, PARAM_BITS_NB);
    WriteOfHalves(s, t, p[..], 0x10 * (cmdNo as int) + paramNo);
  }

  method WriteDataSize(p: array<uint8>, dataSize: uint16)
    requires 3 <= p.Length && p[1] == 0 && p[2] == 0
    modifies p
    ensures p[..] == old(p[..])[1 := dataSize / 0x100][2 := dataSize % 0x100]
  {
    hide Bits, WriteBits;
    ghost var s := p[..];
    WriteBitValue(p, 1, 0, ToInt16(dataSize), DATA_SIZE_BITS_NB);
    WriteOfWord(s, p[..], 1, dataSize);
  }

  method WriteData(p: array<uint8>, data: array<uint8>, dataSize: uint16)
    requires p != data && dataSize <= data.Length && 3 + dataSize <= p.Length
    requires forall i :: 3 <= i < 3 + dataSize ==> p[i] == 0
    modifies p
    ensures p[..] == old(p[..3]) + data[..dataSize] + old(p[3 + dataSize..])
  {
    hide Bits, WriteBits;
    ghost var s := p[..];
    for i := 0 to dataSize
      invariant p[..] == s[..3] + data[..i] + s[3 + i..]
    {
      ghost var t := p[..];
      WriteBitValue(p, 3 + i, 0, data[i], 8);
      WriteOfByte(t, p[..], 3 + i, data[i]);
    }
  }

  method WriteChecksum(p: array<uint8>, checksum: uint8, dataSize: uint16)
    requires 3 + dataSize < p.Length && p[3 + dataSize] == 0
    modifies p
    ensures p[..] == old(p[..])[3 + dataSize := checksum]
  {
    hide Bits, WriteBits;
    ghost var s := p[..];
    WriteBitValue(p, 3 + dataSize, 0, checksum, CHECKSUM_BITS_NB);
    WriteOfByte(s, p[..], 3 + dataSize, checksum);
  }

  method ReadCmd(p: array<uint8>) returns (cmd: uint8)
    requires 0 < p.Length
    ensures cmd == p[0] / 0x10
  {
    var v := ReadBitValue(p, 0, 0, CMD_BITS_NB);
    ReadOfHalves(p[..]);
    cmd := ToUInt8(v);
  }

  method ReadParam(p: array<uint8>) returns (param: uint8)
    requires 0 < p.Length
    ensures param == p[0] % 0x10
  {
    var v := ReadBitValue(p, 0, 4, PARAM_BITS_NB);
    ReadOfHalves(p[..]);
    param := ToUInt8(v);
  }

  method ReadDataSize(p: array<uint8>) returns (size: uint16)
    requires 3 <= p.Length
    ensures size == 0x100 * (p[1] as int) + p[2]
  {
    var v := ReadBitValue(p, 0, 8, DATA_SIZE_BITS_NB);
    ReadOfWord(p[..], 1);
    size := ToUInt16(v);
  }

  method ReadHeader(p: array<uint8>) returns (header: uint8)
    requires 0 < p.Length
    ensures header == p[0]
  {
    header := p[0];
  }

  method ReadData(p: array<uint8>, dst: array<uint8>, size: uint16)
    requires p != dst && 3 + size <= p.Length && size <= dst.Length
    modifies dst
    ensures dst[..size] == p[3..3 + size] && dst[size..] == old(dst[size..])
  {
    for i := 0 to size
      invariant dst[..i] == p[3..3 + i] && dst[i..] == old(dst[i..])
    {
      dst[i] := p[3 + i];
    }
  }

  method ReadChecksum(p: array<uint8>, dataSize: uint16) returns (checksum: uint8)
    requires 3 + dataSize < p.Length
    ensures checksum == p[3 + dataSize]
  {
    var v := ReadBitValue(p, 3 + dataSize, 0, CHECKSUM_BITS_NB);
    ReadOfByte(p[..], 3 + dataSize);
    checksum := ToUInt8(v);
  }
}
