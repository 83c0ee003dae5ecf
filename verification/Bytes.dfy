/** Bytes, and the big-endian numbers the binary formats are made of. */
module Bytes {

  type Byte = b: nat | b < 256

  /** One more than the greatest number of `count` bytes. */
  function Limit(count: nat): (limit: nat)
    ensures limit > 0
  {
    if count == 0 then 1 else 256 * Limit(count - 1)
  }

  function BigEndian(n: nat, count: nat): (bytes: seq<Byte>)
    ensures |bytes| == count
  {
    if count == 0 then [] else BigEndian(n / 256, count - 1) + [n % 256]
  }

  function FromBigEndian(bytes: seq<Byte>): (n: nat)
    ensures n < Limit(|bytes|)
  {
    if bytes == [] then 0
    else
      var last: nat := bytes[|bytes| - 1];
      256 * FromBigEndian(bytes[..|bytes| - 1]) + last
  }

  /** A number written in enough bytes reads back. */
  lemma {:induction false} BigEndianReadsBack(n: nat, count: nat)
    requires n < Limit(count)
    ensures FromBigEndian(BigEndian(n, count)) == n
    decreases count
  {
    if count > 0 {
      var front := BigEndian(n / 256, count - 1);
      assert (front + [n % 256])[..count - 1] == front;
      BigEndianReadsBack(n / 256, count - 1);
    }
  }

  /** And bytes read as a number are written back. */
  lemma {:induction false} BytesReadBack(bytes: seq<Byte>)
    ensures BigEndian(FromBigEndian(bytes), |bytes|) == bytes
    decreases |bytes|
  {
    if bytes != [] {
      var front, last := bytes[..|bytes| - 1], bytes[|bytes| - 1];
      BytesReadBack(front);
      LastByte(FromBigEndian(front), last);
      assert bytes == front + [last];
    }
  }

  lemma LastByte(n: nat, last: Byte)
    ensures (256 * n + last) / 256 == n && (256 * n + last) % 256 == last
  {
  }

  lemma Limits()
    ensures Limit(2) == 0x1_0000 && Limit(4) == 0x1_0000_0000 && Limit(8) == 0x1_0000_0000_0000_0000
  {
    assert Limit(4) == 256 * 256 * Limit(2);
    assert Limit(6) == 256 * 256 * Limit(4);
    assert Limit(8) == 256 * 256 * Limit(6);
  }

  /** The bytes of an ASCII name. */
  function Ascii(name: string): (bytes: seq<Byte>)
    requires forall i :: 0 <= i < |name| ==> name[i] < '\U{80}'
    ensures |bytes| == |name| && forall i :: 0 <= i < |name| ==> bytes[i] == name[i] as int
  {
    if name == "" then [] else [name[0] as int] + Ascii(name[1..])
  }
}
