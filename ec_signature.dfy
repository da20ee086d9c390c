/**
  The fixed-width encoding of an ECDSA signature used by libtrust's pure-Go
  signer: the integers r and s, each written big-endian on exactly
  ceil(BitSize / 8) octets (leading zeros included), R first and then S.
  This is the JWS signature format of section 3.4 of RFC 7518.

  Hashing the payload and computing r and s (`ecdsa.Sign`, with its random
  source) are not part of this model: the signer receives the minimal
  big-endian bytes of r and s and the curve's bit size.
*/
module EcSignature {
  newtype byte = b: int | 0 <= b < 256

  /** The octets of one coordinate of a curve of `bitSize` bits: `(bitSize + 7) >> 3`, the ceiling of bitSize / 8. */
  function OctetLength(bitSize: nat): (n: nat)
    ensures 8 * n >= bitSize
    ensures 8 * n < bitSize + 8
  {
    (bitSize + 7) / 8
  }

  function Zeros(n: nat): (r: seq<byte>)
    ensures |r| == n
    ensures forall i | 0 <= i < n :: r[i] == 0
  {
    if n == 0 then [] else Zeros(n - 1) + [0]
  }

  /** `b` preceded by enough zero bytes to be exactly `n` bytes long. */
  function LeftPad(b: seq<byte>, n: nat): (r: seq<byte>)
    requires |b| <= n
    ensures |r| == n
  {
    Zeros(n - |b|) + b
  }

  /** The signature the code returns: R padded to `n` octets, then S padded to `n` octets. */
  function Signature(rBytes: seq<byte>, sBytes: seq<byte>, n: nat): (sig: seq<byte>)
    requires |rBytes| <= n && |sBytes| <= n
    ensures |sig| == 2 * n
  {
    LeftPad(rBytes, n) + LeftPad(sBytes, n)
  }

  // The imperative encoder

  /**
    Go's `make([]byte, length, capacity)`: a buffer of `capacity` bytes,
    of which the first `length`, all zero, are in use.
  */
  method Make(length: nat, capacity: nat) returns (buf: array<byte>)
    requires length <= capacity
    ensures fresh(buf)
    ensures buf.Length == capacity
    ensures buf[..length] == Zeros(length)
  {
    buf := new byte[capacity](_ => 0);
  }

  /**
    Go's `append(buf[:len], src...)` when the buffer has room: `src` is copied
    after the `len` bytes in use, and the new length is returned.
  */
  method AppendInPlace(buf: array<byte>, len: nat, src: seq<byte>) returns (newLen: nat)
    requires len + |src| <= buf.Length
    modifies buf
    ensures newLen == len + |src|
    ensures buf[..newLen] == old(buf[..len]) + src
    ensures forall k | newLen <= k < buf.Length :: buf[k] == old(buf[k])
  {
    for i := 0 to |src|
      invariant buf[..len + i] == old(buf[..len]) + src[..i]
      invariant forall k | len + i <= k < buf.Length :: buf[k] == old(buf[k])
    {
      buf[len + i] := src[i];
      assert buf[..len + i + 1] == buf[..len + i] + [src[i]];
      assert src[..i + 1] == src[..i] + [src[i]];
    }
    newLen := len + |src|;
  }

  /**
    Go's `append(a[:alen], b[:blen]...)` when `a` has no spare room: a new
    buffer holding the bytes in use of `a`, then those of `b`.
  */
  method AppendGrow(a: array<byte>, alen: nat, b: array<byte>, blen: nat) returns (c: array<byte>)
    requires alen <= a.Length && blen <= b.Length
    ensures fresh(c)
    ensures c[..] == a[..alen] + b[..blen]
  {
    c := new byte[alen + blen](_ => 0);
    for i := 0 to alen
      invariant c[..i] == a[..i]
    {
      c[i] := a[i];
      assert c[..i + 1] == c[..i] + [a[i]];
      assert a[..i + 1] == a[..i] + [a[i]];
    }
    for j := 0 to blen
      invariant c[..alen] == a[..alen]
      invariant c[alen..alen + j] == b[..j]
    {
      c[alen + j] := b[j];
      assert c[alen..alen + j + 1] == c[alen..alen + j] + [b[j]];
      assert b[..j + 1] == b[..j] + [b[j]];
    }
    assert c[..] == c[..alen] + c[alen..alen + blen];
  }

  /**
    The padding and concatenation at the end of `(*ecPrivateKey).sign`: each
    of r and s goes into a zeroed buffer of `octetLength` bytes after its
    leading zeros, and the two buffers are joined. The buffers have length
    `octetLength` minus the length of the bytes; a negative length would make
    `make` panic, hence the precondition.
  */
  method EncodeSignature(rBytes: seq<byte>, sBytes: seq<byte>, bitSize: nat) returns (sig: array<byte>)
    requires |rBytes| <= OctetLength(bitSize) && |sBytes| <= OctetLength(bitSize)
    ensures sig[..] == Signature(rBytes, sBytes, OctetLength(bitSize))
  {
    var octetLength := OctetLength(bitSize);
    var rBuf := Make(octetLength - |rBytes|, octetLength);
    var sBuf := Make(octetLength - |sBytes|, octetLength);
    var rLen := AppendInPlace(rBuf, octetLength - |rBytes|, rBytes);
    var sLen := AppendInPlace(sBuf, octetLength - |sBytes|, sBytes);
    sig := AppendGrow(rBuf, rLen, sBuf, sLen);
  }

  // Big-endian values

  /** 256 to the power n: the number of values n bytes can hold. */
  function Pow256(n: nat): nat {
    if n == 0 then 1 else 256 * Pow256(n - 1)
  }

  /** The unsigned integer that a byte string denotes, most significant byte first. */
  function Value(bs: seq<byte>): nat {
    if |bs| == 0 then 0 else Value(bs[..|bs| - 1]) * 256 + bs[|bs| - 1] as int
  }

  /** The big-endian representation of `x` on exactly `n` bytes. */
  function Encode(x: nat, n: nat): (r: seq<byte>)
    ensures |r| == n
  {
    if n == 0 then [] else Encode(x / 256, n - 1) + [(x % 256) as byte]
  }

  /** The signature as a verifier reads it: the first `n` octets are R, the rest S. */
  function Decode(sig: seq<byte>, n: nat): (rs: (nat, nat))
    requires |sig| == 2 * n
  {
    (Value(sig[..n]), Value(sig[n..]))
  }

  // Properties of the encoding

  /** Reading back an encoding gives the number encoded. */
  lemma {:induction false} EncodeValue(x: nat, n: nat)
    requires x < Pow256(n)
    ensures Value(Encode(x, n)) == x
  {
    if n > 0 {
      var e := Encode(x, n);
      assert e[..n - 1] == Encode(x / 256, n - 1);
      EncodeValue(x / 256, n - 1);
    }
  }

  /** Encoding the number a byte string denotes, on its own length, gives the string back. */
  lemma {:induction false} ValueEncode(bs: seq<byte>)
    ensures Encode(Value(bs), |bs|) == bs
    decreases |bs|
  {
    if |bs| > 0 {
      var init := bs[..|bs| - 1];
      var v := Value(bs);
      assert v / 256 == Value(init);
      assert v % 256 == bs[|bs| - 1] as int;
      ValueEncode(init);
      assert bs == init + [bs[|bs| - 1]];
    }
  }

  /** Leading zero bytes do not change the number denoted. */
  lemma {:induction false} LeadingZerosValue(k: nat, b: seq<byte>)
    ensures Value(Zeros(k) + b) == Value(b)
    decreases |b|, k
  {
    if |b| > 0 {
      var init := b[..|b| - 1];
      assert (Zeros(k) + b)[..|Zeros(k) + b| - 1] == Zeros(k) + init;
      LeadingZerosValue(k, init);
    } else if k > 0 {
      assert Zeros(k) + b == Zeros(k - 1) + [0];
      assert Zeros(k - 1) + [0] == Zeros(k - 1) + [0] + b;
      LeadingZerosValue(k - 1, b);
      assert Zeros(k - 1) + b == Zeros(k - 1);
    }
  }

  /** Left padding to n bytes writes the same number on exactly n bytes. */
  lemma LeftPadIsEncoding(b: seq<byte>, n: nat)
    requires |b| <= n
    ensures Value(LeftPad(b, n)) == Value(b)
    ensures LeftPad(b, n) == Encode(Value(b), n)
  {
    LeadingZerosValue(n - |b|, b);
    ValueEncode(LeftPad(b, n));
  }

  /**
    R comes first and S second, each after its leading zeros: the first
    n - |r| octets are zero, the next |r| are r, and the same for s in the
    second half.
  */
  lemma SignatureLayout(rBytes: seq<byte>, sBytes: seq<byte>, n: nat)
    requires |rBytes| <= n && |sBytes| <= n
    ensures var sig := Signature(rBytes, sBytes, n);
      && (forall i | 0 <= i < n - |rBytes| :: sig[i] == 0)
      && sig[n - |rBytes|..n] == rBytes
      && (forall i | n <= i < 2 * n - |sBytes| :: sig[i] == 0)
      && sig[2 * n - |sBytes|..] == sBytes
  {
    var sig := Signature(rBytes, sBytes, n);
    assert sig[..n] == LeftPad(rBytes, n);
    assert sig[n..] == LeftPad(sBytes, n);
    assert sig[n - |rBytes|..n] == sig[..n][n - |rBytes|..];
    assert sig[2 * n - |sBytes|..] == sig[n..][n - |sBytes|..];
  }

  /** The signature is the two numbers written big-endian on n octets each, as the JWS format defines it. */
  lemma SignatureOfValues(rBytes: seq<byte>, sBytes: seq<byte>, n: nat)
    requires |rBytes| <= n && |sBytes| <= n
    ensures Signature(rBytes, sBytes, n) == Encode(Value(rBytes), n) + Encode(Value(sBytes), n)
  {
    LeftPadIsEncoding(rBytes, n);
    LeftPadIsEncoding(sBytes, n);
  }

  /** Splitting the signature at n and reading each half recovers r and s. */
  lemma DecodeSignature(rBytes: seq<byte>, sBytes: seq<byte>, n: nat)
    requires |rBytes| <= n && |sBytes| <= n
    ensures Decode(Signature(rBytes, sBytes, n), n) == (Value(rBytes), Value(sBytes))
  {
    var sig := Signature(rBytes, sBytes, n);
    assert sig[..n] == LeftPad(rBytes, n);
    assert sig[n..] == LeftPad(sBytes, n);
    LeftPadIsEncoding(rBytes, n);
    LeftPadIsEncoding(sBytes, n);
  }

  /** Every string of 2n octets is the signature of its own halves: the format wastes no encoding. */
  lemma SignatureOfHalves(sig: seq<byte>, n: nat)
    requires |sig| == 2 * n
    ensures Signature(sig[..n], sig[n..], n) == sig
  {
    assert Zeros(0) == [];
    assert sig == sig[..n] + sig[n..];
  }

  /** Two numbers below 256^n written on n octets each are read back by splitting at n. */
  lemma DecodeEncodedPair(x: nat, y: nat, n: nat)
    requires x < Pow256(n) && y < Pow256(n)
    ensures Decode(Encode(x, n) + Encode(y, n), n) == (x, y)
  {
    var sig := Encode(x, n) + Encode(y, n);
    assert sig[..n] == Encode(x, n);
    assert sig[n..] == Encode(y, n);
    EncodeValue(x, n);
    EncodeValue(y, n);
  }
}
