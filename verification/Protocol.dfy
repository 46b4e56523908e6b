/** src/protocol.c: framed packets with a complemented 8-bit sum, and the pin types. */
module Protocol {
  import opened Words

  import opened HeaderFields

  const OVERHEAD_SIZE: nat := 4

  const PIN_TYPE_BITS_NB: uint8 := 3
  const PIN_TYPE_DIGITAL: uint8 := 0
  const PIN_TYPE_ANALOG8: uint8 := 1
  const PIN_TYPE_ANALOG16: uint8 := 2
  const PIN_TYPE_PWM8: uint8 := 3
  const PIN_TYPE_PWM16: uint8 := 4
  const PIN_TYPE_DISABLED: uint8 := 7

  const CMD_GET_CAPS: uint8 := 0
  const CMD_RESET: uint8 := 1
  const CMD_PING: uint8 := 2
  const CMD_READ: uint8 := 3
  const CMD_WRITE: uint8 := 4
  const CMD_GET_TYPE: uint8 := 5
  const CMD_SET_TYPE: uint8 := 6
  const CMD_GET_FAILSAFE: uint8 := 7
  const CMD_SET_FAILSAFE: uint8 := 8
  const REP_CODE_SUCCESS: uint8 := 0

  const REPLY_ID_BITS_NB: uint8 := 8

  const USE_PIN_ID: uint8 := 0
  const USE_MASK: uint8 := 1

  /** The width of the values of a pin type; invalid types have width 0. */
  function GetTypeBitsNb(pinType: uint8): (n: uint8)
    ensures n <= 16
  {
    if pinType == PIN_TYPE_DIGITAL then 1
    else if pinType == PIN_TYPE_ANALOG8 || pinType == PIN_TYPE_PWM8 then 8
    else if pinType == PIN_TYPE_ANALOG16 || pinType == PIN_TYPE_PWM16 then 16
    else 0
  }

  /** The widths in numbers: digital, analog and PWM types, and every other number. */
  lemma Widths(t: uint8)
    ensures GetTypeBitsNb(0) == 1
    ensures GetTypeBitsNb(1) == 8 && GetTypeBitsNb(3) == 8
    ensures GetTypeBitsNb(2) == 16 && GetTypeBitsNb(4) == 16
    ensures t > 4 ==> GetTypeBitsNb(t) == 0
  {
  }

  /** A packet, without the size field, which is the length of the data. */
  datatype Message = Message(header: uint8, data: seq<uint8>, checksum: uint8) {
    predicate Sized() {
      |data| < 0x1_0000
    }

    /** The bytes on the wire: header, size high byte, size low byte, data, checksum. */
    function Wire(): (w: seq<uint8>)
      requires Sized()
      ensures |w| == |data| + OVERHEAD_SIZE
    {
      [header, |data| / 0x100, |data| % 0x100] + data + [checksum]
    }
  }

  /** The size field of a packet in a receive buffer. */
  function WireSize(w: seq<uint8>): uint16
    requires |w| >= 3
  {
    0x100 * (w[1] as int) + w[2]
  }

  predicate Framed(w: seq<uint8>) {
    |w| >= OVERHEAD_SIZE && WireSize(w) + OVERHEAD_SIZE <= |w|
  }

  /** The packet at the start of a receive buffer. */
  function Parse(w: seq<uint8>): (m: Message)
    requires Framed(w)
    ensures m.Sized()
  {
    Message(w[0], w[3..3 + WireSize(w)], w[3 + WireSize(w)])
  }

  function Sum(s: seq<uint8>): nat {
    if s == [] then 0 else Sum(s[..|s| - 1]) + s[|s| - 1]
  }

  predicate Valid(m: Message)
    requires m.Sized()
  {
    Sum(m.Wire()) % 0x100 == 0xFF
  }

  /** Parsing undoes framing, whatever follows the packet in the receive buffer. */
  lemma ParseOfWire(m: Message, rest: seq<uint8>)
    requires m.Sized()
    ensures Framed(m.Wire() + rest) && Parse(m.Wire() + rest) == m
  {
    var w := m.Wire() + rest;
    assert w[1] == |m.data| / 0x100 && w[2] == |m.data| % 0x100;
    assert w[3..3 + |m.data|] == m.data;
  }

  /** Framing is injective: the wire form says everything about a packet. */
  lemma WireInjective(m: Message, m': Message)
    requires m.Sized() && m'.Sized() && m.Wire() == m'.Wire()
    ensures m == m'
  {
    ParseOfWire(m, []);
    ParseOfWire(m', []);
  }

  lemma {:induction false} SumConcat(s: seq<uint8>, t: seq<uint8>)
    ensures Sum(s + t) == Sum(s) + Sum(t)
  {
    if t == [] {
      assert s + t == s;
    } else {
      assert (s + t)[..|s + t| - 1] == s + t[..|t| - 1];
      SumConcat(s, t[..|t| - 1]);
    }
  }

  lemma AddByte(x: int, y: int)
    ensures ToUInt8(ToUInt8(x) + y) == ToUInt8(x + y)
  {
  }

  lemma SumOfNone(s: seq<uint8>)
    ensures Sum(s[..0]) == 0
  {
  }

  lemma SumOfPrefix(s: seq<uint8>, i: nat)
    requires i < |s|
    ensures Sum(s[..i + 1]) == Sum(s[..i]) + s[i]
  {
    assert s[..i + 1][..i] == s[..i];
  }

  lemma WireSum(m: Message)
    requires m.Sized()
    ensures Sum(m.Wire()) == (m.header as int) + |m.data| / 0x100 + |m.data| % 0x100 + Sum(m.data) + m.checksum
  {
    var h: seq<uint8> := [m.header, |m.data| / 0x100, |m.data| % 0x100];
    SumOfThree(m.header, |m.data| / 0x100, |m.data| % 0x100);
    SumOfOne(m.checksum);
    SumConcat(h + m.data, [m.checksum]);
    SumConcat(h, m.data);
  }

  lemma SumOfOne(x: uint8)
    ensures Sum([x]) == x
  {
    assert [x][..0] == [];
  }

  lemma SumOfThree(x: uint8, y: uint8, z: uint8)
    ensures Sum([x, y, z]) == (x as int) + y + z
  {
    SumOfOne(x);
    assert [x, y, z][..2] == [x, y] && [x, y][..1] == [x];
  }

  /** The only checksum that makes a packet valid. */
  lemma ValidIff(m: Message)
    requires m.Sized()
    ensures Valid(m) <==>
      m.checksum == 0xFF - ((m.header as int) + |m.data| / 0x100 + |m.data| % 0x100 + Sum(m.data)) % 0x100
  {
    hide Sum;
    WireSum(m);
  }

  /** The packet that `send_packet` puts on the wire. */
  function Seal(header: uint8, data: seq<uint8>): (m: Message)
    requires |data| < 0x1_0000
    ensures m.header == header && m.data == data && m.Sized() && Valid(m)
  {
    var m := Message(header, data, 0xFF - ((header as int) + |data| / 0x100 + |data| % 0x100 + Sum(data)) % 0x100);
    ValidIff(m);
    m
  }

  /** The sum of the byte differences of two wire forms. */
  function Drift(w: seq<uint8>, w': seq<uint8>): int
    requires |w| == |w'|
  {
    if w == [] then 0 else Drift(w[..|w| - 1], w'[..|w| - 1]) + (w'[|w| - 1] as int) - w[|w| - 1]
  }

  lemma {:induction false} DriftIsDifference(w: seq<uint8>, w': seq<uint8>)
    requires |w| == |w'|
    ensures Drift(w, w') == Sum(w') - Sum(w)
  {
    if w != [] {
      DriftIsDifference(w[..|w| - 1], w'[..|w| - 1]);
    }
  }

  /** With the size unchanged, an altered packet passes exactly when its differences cancel out. */
  lemma AlterationPassesIff(m: Message, m': Message)
    requires m.Sized() && Valid(m) && |m'.data| == |m.data|
    ensures Valid(m') <==> Drift(m.Wire(), m'.Wire()) % 0x100 == 0
  {
    DriftIsDifference(m.Wire(), m'.Wire());
  }

  lemma {:induction false} DriftOfOne(w: seq<uint8>, w': seq<uint8>, i: nat)
    requires |w| == |w'| && i < |w| && w' == w[i := w'[i]]
    ensures Drift(w, w') == (w'[i] as int) - w[i]
  {
    var last := |w| - 1;
    if i == last {
      assert w'[..last] == w[..last];
      DriftIsDifference(w[..last], w'[..last]);
    } else {
      assert w'[..last] == w[..last][i := w'[i]];
      DriftOfOne(w[..last], w'[..last], i);
    }
  }

  /** Any single changed byte other than the size bytes is caught. */
  lemma SingleChangeCaught(m: Message, m': Message, i: nat)
    requires m.Sized() && Valid(m) && |m'.data| == |m.data|
    requires i < |m.Wire()| && m'.Wire() == m.Wire()[i := m'.Wire()[i]] && m'.Wire()[i] != m.Wire()[i]
    ensures !Valid(m')
  {
    AlterationPassesIff(m, m');
    DriftOfOne(m.Wire(), m'.Wire(), i);
  }

  /** The five fields written one after the other form the wire image of the packet. */
  lemma WireInBuffer(s: seq<uint8>, m: Message)
    requires m.Sized() && |m.data| + OVERHEAD_SIZE <= |s|
    ensures var t := s[0 := m.header][1 := |m.data| / 0x100][2 := |m.data| % 0x100];
      var r := (t[..3] + m.data + t[3 + |m.data|..])[3 + |m.data| := m.checksum];
      r[..|m.data| + OVERHEAD_SIZE] == m.Wire() && r[|m.data| + OVERHEAD_SIZE..] == s[|m.data| + OVERHEAD_SIZE..]
  {
  }

  /** `struct packet`; `data` is a buffer of at least `size` bytes. */
  class Packet {
    var header: uint8
    var size: uint16
    var data: array<uint8>
    var checksum: uint8

    constructor ()
    {
      data := new uint8[0];
    }

    predicate Allocated()
      reads this
    {
      size <= data.Length
    }

    function View(): (m: Message)
      requires Allocated()
      reads this, data
      ensures m.Sized()
    {
      Message(header, data[..size], checksum)
    }

    method SetHeader(cmdNo: uint8, param: uint8, size: uint16)
      modifies this
      ensures header == ToUInt8(0x10 * (cmdNo as int) + param) && this.size == size
      ensures data == old(data) && checksum == old(checksum)
    {
      header := ToUInt8(0x10 * (cmdNo as int) + param);
      this.size := size;
    }

    method ComputeChecksum() returns (c: uint8)
      requires Allocated()
      ensures forall c': uint8 :: Valid(View().(checksum := c')) <==> c' == c
    {
      hide Valid, Sum;
      ghost var d, h := data[..size], (header as int) + size % 0x100 + size / 0x100;
      var sum := header;
      sum := ToUInt8((sum as int) + size % 0x100);
      sum := ToUInt8((sum as int) + size / 0x100);
      SumOfNone(d);
      for i := 0 to size
        invariant sum == ToUInt8(h + Sum(d[..i]))
      {
        SumOfPrefix(d, i);
        AddByte(h + Sum(d[..i]), data[i]);
        sum := ToUInt8((sum as int) + data[i]);
      }
      assert d[..size] == d;
      c := 0xFF - sum;
      forall c': uint8
        ensures Valid(View().(checksum := c')) <==> c' == c
      {
        ValidIff(View().(checksum := c'));
      }
    }

    method PacketValid() returns (ok: bool)
      requires Allocated()
      ensures ok <==> Valid(View())
    {
      var c := ComputeChecksum();
      assert View() == View().(checksum := checksum);
      ok := c == checksum;
    }

    /** The C function takes the address of the header, a buffer of one byte. */
    method HeaderBuffer() returns (h: array<uint8>)
      ensures fresh(h) && h.Length == 1 && h[0] == header
    {
      h := new uint8[1];
      h[0] := header;
    }

    method PacketWrite(buffer: array<uint8>)
      requires Allocated() && buffer != data && size + OVERHEAD_SIZE <= buffer.Length
      requires forall i :: 0 <= i < size + OVERHEAD_SIZE ==> buffer[i] == 0
      modifies buffer
      ensures buffer[..size + OVERHEAD_SIZE] == View().Wire()
      ensures buffer[size + OVERHEAD_SIZE..] == old(buffer[size + OVERHEAD_SIZE..])
    {
      ghost var s := buffer[..];
      var h := HeaderBuffer();
      var cmd := ReadCmd(h);
      var param := ReadParam(h);
      WriteCmdAndParam(buffer, cmd, param);
      WriteDataSize(buffer, size);
      WriteData(buffer, data, size);
      WriteChecksum(buffer, checksum, size);
      WireInBuffer(s, View());
    }

    method PacketRead(buffer: array<uint8>)
      requires Framed(buffer[..])
      modifies this
      ensures size == data.Length && fresh(data) && View() == Parse(buffer[..])
    {
      var n := ReadDataSize(buffer);
      size := n;
      data := new uint8[n];
      header := ReadHeader(buffer);
      ReadData(buffer, data, size);
      checksum := ReadChecksum(buffer, size);
    }
  }
}
