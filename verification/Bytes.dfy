/** Bytes, and the big-endian integers of the wire format. */
module Bytes {
  newtype byte = x: int | 0 <= x < 256

  type Blob = seq<byte>

  function Zeros(n: nat): (z: Blob)
    ensures |z| == n && forall i :: 0 <= i < n ==> z[i] == 0
  {
    seq(n, i => 0)
  }

  predicate AllZero(data: Blob, from: nat, to: nat)
    requires to <= |data|
  {
    forall i :: from <= i < to ==> data[i] == 0
  }

  const U16: nat := 0x1_0000
  const U32: nat := 0x1_0000_0000

  /** u32::to_be_bytes */
  function BigEndian(n: nat): (b: Blob)
    requires n < U32
    ensures |b| == 4
  {
    [(n / 0x100_0000) as byte, (n / 0x1_0000 % 0x100) as byte, (n / 0x100 % 0x100) as byte, (n % 0x100) as byte]
  }

  /** u32::from_be_bytes */
  function FromBigEndian(b: Blob): (n: nat)
    requires |b| == 4
    ensures n < U32
  {
    b[0] as int * 0x100_0000 + b[1] as int * 0x1_0000 + b[2] as int * 0x100 + b[3] as int
  }

  lemma BigEndianRoundTrip(n: nat)
    requires n < U32
    ensures FromBigEndian(BigEndian(n)) == n
  {
    var high := n / 0x100;
    assert n / 0x1_0000 == high / 0x100;
    assert n / 0x100_0000 == (high / 0x100) / 0x100;
  }

  lemma BigEndianInjective(b: Blob)
    requires |b| == 4
    ensures BigEndian(FromBigEndian(b)) == b
  {
    var n := FromBigEndian(b);
    assert n / 0x100 == b[0] as int * 0x1_0000 + b[1] as int * 0x100 + b[2] as int;
    assert n / 0x1_0000 == b[0] as int * 0x100 + b[1] as int;
    assert n / 0x100_0000 == b[0] as int;
  }

  /** i32 seen as the u32 with the same bits, and back. */
  function TwosComplement(i: int): (n: nat)
    requires -0x8000_0000 <= i < 0x8000_0000
    ensures n < U32
  {
    if i < 0 then i + U32 else i
  }

  function FromTwosComplement(n: nat): (i: int)
    requires n < U32
    ensures -0x8000_0000 <= i < 0x8000_0000
  {
    if n < 0x8000_0000 then n else n - U32
  }

  /** An i32 survives to_be_bytes followed by from_be_bytes. */
  lemma SignedRoundTrip(i: int)
    requires -0x8000_0000 <= i < 0x8000_0000
    ensures FromTwosComplement(FromBigEndian(BigEndian(TwosComplement(i)))) == i
  {
    BigEndianRoundTrip(TwosComplement(i));
  }
}
