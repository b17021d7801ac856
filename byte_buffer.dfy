/** The big-endian reads and writes of `java.nio.ByteBuffer` that the RIPv2
    entry codec uses: `putShort`/`getShort` (2 octets) and `putInt`/`getInt`
    (4 octets), most significant octet first. */
module ByteBuffer {
  import opened JavaTypes

  /** The two octets `putShort` writes for `x`. */
  function PutShort(x: int16): (b: seq<uint8>)
    ensures |b| == 2
    ensures b[0] as int * 0x100 + b[1] as int == Unsigned16(x)
  {
    var u := Unsigned16(x);
    [(u / 0x100) as uint8, (u % 0x100) as uint8]
  }

  /** The short `getShort` reads from `data` at position `at`. */
  function GetShort(data: seq<uint8>, at: int): (x: int16)
    requires 0 <= at && at + 2 <= |data|
    ensures Unsigned16(x) == data[at] as int * 0x100 + data[at + 1] as int
  {
    Signed16(data[at] as int * 0x100 + data[at + 1] as int)
  }

  /** The four octets `putInt` writes for `x`. */
  function PutInt(x: int32): (b: seq<uint8>)
    ensures |b| == 4
    ensures ((b[0] as int * 0x100 + b[1] as int) * 0x100 + b[2] as int) * 0x100 + b[3] as int == Unsigned32(x)
  {
    var u := Unsigned32(x);
    var hi, lo := u / 0x1_0000, u % 0x1_0000;
    [(hi / 0x100) as uint8, (hi % 0x100) as uint8, (lo / 0x100) as uint8, (lo % 0x100) as uint8]
  }

  /** The int `getInt` reads from `data` at position `at`. */
  function GetInt(data: seq<uint8>, at: int): (x: int32)
    requires 0 <= at && at + 4 <= |data|
    ensures Unsigned32(x) == ((data[at] as int * 0x100 + data[at + 1] as int) * 0x100 + data[at + 2] as int) * 0x100 + data[at + 3] as int
  {
    Signed32(((data[at] as int * 0x100 + data[at + 1] as int) * 0x100 + data[at + 2] as int) * 0x100 + data[at + 3] as int)
  }

  /** Reading back a written short gives the short, wherever it sits in the buffer. */
  lemma GetPutShort(x: int16, before: seq<uint8>, after: seq<uint8>)
    ensures GetShort(before + PutShort(x) + after, |before|) == x
  {
    var data := before + PutShort(x) + after;
    assert data[|before|] == PutShort(x)[0] && data[|before| + 1] == PutShort(x)[1];
    Signed16OfUnsigned16(x);
  }

  /** Reading back a written int gives the int, wherever it sits in the buffer. */
  lemma GetPutInt(x: int32, before: seq<uint8>, after: seq<uint8>)
    ensures GetInt(before + PutInt(x) + after, |before|) == x
  {
    var data := before + PutInt(x) + after;
    var k := |before|;
    assert data[k] == PutInt(x)[0] && data[k + 1] == PutInt(x)[1];
    assert data[k + 2] == PutInt(x)[2] && data[k + 3] == PutInt(x)[3];
    Signed32OfUnsigned32(x);
  }

  /** Writing a read short reproduces the two octets it was read from. */
  lemma PutGetShort(data: seq<uint8>, at: int)
    requires 0 <= at && at + 2 <= |data|
    ensures PutShort(GetShort(data, at)) == data[at..at + 2]
  {
    var b := PutShort(GetShort(data, at));
    assert b[0] as int * 0x100 + b[1] as int == data[at] as int * 0x100 + data[at + 1] as int;
  }

  /** Writing a read int reproduces the four octets it was read from. */
  lemma PutGetInt(data: seq<uint8>, at: int)
    requires 0 <= at && at + 4 <= |data|
    ensures PutInt(GetInt(data, at)) == data[at..at + 4]
  {
    var b := PutInt(GetInt(data, at));
    OctetsDetermined(b[0], b[1], b[2], b[3], data[at], data[at + 1], data[at + 2], data[at + 3]);
  }

  /** Big-endian notation is unique: equal values have equal octets. */
  lemma OctetsDetermined(a0: uint8, a1: uint8, a2: uint8, a3: uint8, b0: uint8, b1: uint8, b2: uint8, b3: uint8)
    requires ((a0 as int * 0x100 + a1 as int) * 0x100 + a2 as int) * 0x100 + a3 as int
          == ((b0 as int * 0x100 + b1 as int) * 0x100 + b2 as int) * 0x100 + b3 as int
    ensures a0 == b0 && a1 == b1 && a2 == b2 && a3 == b3
  {
    var va := ((a0 as int * 0x100 + a1 as int) * 0x100 + a2 as int);
    var vb := ((b0 as int * 0x100 + b1 as int) * 0x100 + b2 as int);
    assert a3 == b3 && va == vb;
    var wa := a0 as int * 0x100 + a1 as int;
    var wb := b0 as int * 0x100 + b1 as int;
    assert a2 == b2 && wa == wb;
  }
}
