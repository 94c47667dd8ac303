/** Bytes, and unsigned numbers in little-endian bytes. */
module Bytes {
  type byte = b: nat | b < 256

  /** One more than the largest value of n bytes. */
  function Limit(n: nat): nat { if n == 0 then 1 else 256 * Limit(n - 1) }

  function Little(value: nat, n: nat): (bytes: seq<byte>)
    ensures |bytes| == n
  {
    if n == 0 then [] else [value % 256] + Little(value / 256, n - 1)
  }

  function Read(bytes: seq<byte>): nat { if bytes == [] then 0 else bytes[0] + 256 * Read(bytes[1..]) }

  lemma {:induction false} ReadLittle(value: nat, n: nat)
    requires value < Limit(n)
    ensures Read(Little(value, n)) == value
  {
    if n > 0 {
      ReadLittle(value / 256, n - 1);
      assert Little(value, n)[1..] == Little(value / 256, n - 1);
    }
  }

  lemma {:induction false} ReadFits(bytes: seq<byte>)
    ensures Read(bytes) < Limit(|bytes|)
  {
    if bytes != [] {
      ReadFits(bytes[1..]);
    }
  }

  lemma {:induction false} LittleRead(bytes: seq<byte>)
    ensures Little(Read(bytes), |bytes|) == bytes
  {
    if bytes != [] {
      LittleRead(bytes[1..]);
      assert Read(bytes) % 256 == bytes[0] && Read(bytes) / 256 == Read(bytes[1..]);
    }
  }

  lemma Limits()
    ensures Limit(4) == 0x1_0000_0000 && Limit(8) == 0x1_0000_0000_0000_0000
  {
  }

  lemma {:induction false} ReadZeros(bytes: seq<byte>)
    requires forall i :: 0 <= i < |bytes| ==> bytes[i] == 0
    ensures Read(bytes) == 0
  {
    if bytes != [] {
      ReadZeros(bytes[1..]);
    }
  }

  function Zeros(n: nat): (z: seq<byte>)
    ensures |z| == n && forall i :: 0 <= i < n ==> z[i] == 0
  {
    if n == 0 then [] else Zeros(n - 1) + [0]
  }

  /** The sequences agree outside [low, high). */
  ghost predicate Outside(a: seq<byte>, b: seq<byte>, low: nat, high: nat) {
    |a| == |b| && forall i :: 0 <= i < |a| && (i < low || high <= i) ==> a[i] == b[i]
  }

  /** Writes the bytes from this offset on. */
  method Copy(image: array<byte>, offset: nat, bytes: seq<byte>)
    requires offset + |bytes| <= image.Length
    modifies image
    ensures image[offset..offset + |bytes|] == bytes && Outside(old(image[..]), image[..], offset, offset + |bytes|)
  {
    for i := 0 to |bytes|
      invariant image[offset..offset + i] == bytes[..i]
      invariant Outside(old(image[..]), image[..], offset, offset + i)
    {
      image[offset + i] := bytes[i];
    }
  }
}
