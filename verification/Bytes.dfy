/** `uint8_t` data of the servo motor and IMU links. */
module Bytes {

  type Byte = b: int | 0 <= b < 256

  function Sum(data: seq<Byte>): (n: nat) {
    if data == [] then 0 else Sum(data[..|data| - 1]) + data[|data| - 1]
  }

  /** `Checksum` of both packet protocols: the complement of the low byte of the sum. */
  function Checksum(data: seq<Byte>): Byte {
    255 - Sum(data) % 256
  }

  /** The accumulation loop of `Checksum`. */
  method AddUp(data: seq<Byte>) returns (checksum: Byte)
    ensures checksum == Checksum(data)
  {
    var sum: nat := 0;
    for i := 0 to |data|
      invariant sum == Sum(data[..i])
    {
      assert data[..i + 1][..i] == data[..i];
      sum := sum + data[i];
    }
    assert data[..|data|] == data;
    checksum := 255 - sum % 256;
  }

  function Join(blocks: seq<seq<Byte>>): seq<Byte> {
    if blocks == [] then [] else blocks[0] + Join(blocks[1..])
  }

  /** The sum takes every byte once. */
  lemma {:induction false} SumConcat(a: seq<Byte>, b: seq<Byte>)
    ensures Sum(a + b) == Sum(a) + Sum(b)
    ensures |b| == 1 ==> Sum(b) == b[0]
    decreases |b|
  {
    if b == [] {
      assert a + b == a;
    } else {
      var n := |b| - 1;
      assert (a + b)[..|a| + n] == a + b[..n];
      SumConcat(a, b[..n]);
      if n == 0 {
        assert b[..0] == [];
      }
    }
  }

  /** Data and checksum together add up to 255 modulo 256, and with no other byte do they. */
  lemma ChecksumComplements(data: seq<Byte>, c: Byte)
    ensures (Sum(data) + c) % 256 == 255 <==> c == Checksum(data)
  {
    hide Sum;
    var n := Sum(data);
    assert n == n / 256 * 256 + n % 256;
  }
}
