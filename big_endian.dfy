/**
 * Python's `int.bit_length()`, `int.to_bytes(length, 'big')` and
 * `int.from_bytes(bs, 'big')` on non-negative integers: the integer-to-octets
 * step of the JWKS `n`/`e` encoding (server.py:61-62).
 */
module BigEndian {
  import opened Wrappers

  type byte = x: int | 0 <= x < 256

  function Pow2(k: nat): (r: nat)
    ensures r >= 1
  {
    if k == 0 then 1 else 2 * Pow2(k - 1)
  }

  /** `n.bit_length()`: the number of binary digits of `n`, 0 for 0. */
  function BitLength(n: nat): nat
  {
    if n == 0 then 0 else 1 + BitLength(n / 2)
  }

  /** `int.from_bytes(bs, 'big')`. */
  function FromBytes(bs: seq<byte>): nat
  {
    if |bs| == 0 then 0 else FromBytes(bs[..|bs| - 1]) * 256 + bs[|bs| - 1]
  }

  /** The low `length` octets of `n`, most significant first. */
  function BigEndianOctets(n: nat, length: nat): (bs: seq<byte>)
    ensures |bs| == length
  {
    if length == 0 then [] else BigEndianOctets(n / 256, length - 1) + [n % 256]
  }

  /** `n.to_bytes(length, 'big')`: `None` stands for Python's OverflowError. */
  function ToBytes(n: nat, length: nat): (r: Option<seq<byte>>)
    ensures r.Some? <==> n < Pow2(8 * length)
    ensures r.Some? ==> |r.value| == length && FromBytes(r.value) == n
  {
    if n < Pow2(8 * length) then
      FromBigEndianOctets(n, length);
      Some(BigEndianOctets(n, length))
    else None
  }

  /**
   * `(n.bit_length() + 7) // 8`, the length passed to `to_bytes` at
   * server.py:61-62: `to_bytes` never overflows at this length and
   * overflows at every shorter one, so it is the minimal octet count.
   */
  function ByteLength(n: nat): (len: nat)
    ensures ToBytes(n, len).Some?
    ensures forall k: nat :: k < len ==> ToBytes(n, k).None?
    ensures n == 0 <==> len == 0
  {
    BitLengthBounds(n);
    var len := (BitLength(n) + 7) / 8;
    Pow2Monotone(BitLength(n), 8 * len);
    forall k: nat | k < len ensures n >= Pow2(8 * k) {
      Pow2Monotone(8 * k, BitLength(n) - 1);
    }
    len
  }

  /** An octet string is minimal when it has no leading zero octet. */
  predicate Minimal(bs: seq<byte>)
  {
    |bs| == 0 || bs[0] != 0
  }

  /** The octets the source emits for `n` before base64url-encoding them. */
  function MinimalOctets(n: nat): (bs: seq<byte>)
    ensures FromBytes(bs) == n && Minimal(bs)
    ensures |bs| == ByteLength(n)
  {
    MinimalOctetsHaveNoLeadingZero(n);
    ToBytes(n, ByteLength(n)).value
  }

  /** Minimal octet strings are a unique representation of their value. */
  lemma {:induction false} MinimalUnique(bs: seq<byte>, n: nat)
    requires Minimal(bs) && FromBytes(bs) == n
    ensures bs == MinimalOctets(n)
  {
    var cs := MinimalOctets(n);
    FromBytesBound(bs);
    FromBytesBound(cs);
    if |bs| < |cs| {
      var overflow := ToBytes(n, |bs|);
      assert false;
    } else if |cs| < |bs| {
      FromBytesLowerBound(bs);
      Pow2Monotone(8 * |cs|, 8 * (|bs| - 1));
      assert false;
    }
    SameLengthUnique(bs, cs);
  }

  // ---------------------------------------------------------------------------
  // Helper lemmas

  lemma MinimalOctetsHaveNoLeadingZero(n: nat)
    ensures Minimal(ToBytes(n, ByteLength(n)).value)
  {
    var bs := ToBytes(n, ByteLength(n)).value;
    if |bs| > 0 && bs[0] == 0 {
      LeadingZero(bs);
      FromBytesBound(bs[1..]);
      var shorter := ToBytes(n, |bs| - 1);
      assert false;
    }
  }

  lemma {:induction false} Pow2Monotone(a: nat, b: nat)
    requires a <= b
    ensures Pow2(a) <= Pow2(b)
    decreases b - a
  {
    if a < b {
      Pow2Monotone(a, b - 1);
    }
  }

  lemma {:induction false} Pow2Add8(k: nat)
    ensures Pow2(8 * k + 8) == 256 * Pow2(8 * k)
  {
    var m := 8 * k;
    assert Pow2(m + 8) == 2 * Pow2(m + 7) == 4 * Pow2(m + 6) == 8 * Pow2(m + 5) == 16 * Pow2(m + 4);
    assert Pow2(m + 4) == 2 * Pow2(m + 3) == 4 * Pow2(m + 2) == 8 * Pow2(m + 1) == 16 * Pow2(m);
  }

  lemma {:induction false} BitLengthBounds(n: nat)
    ensures n < Pow2(BitLength(n))
    ensures n > 0 ==> Pow2(BitLength(n) - 1) <= n
  {
    if n > 0 {
      BitLengthBounds(n / 2);
    }
  }

  lemma {:induction false} FromBigEndianOctets(n: nat, length: nat)
    requires n < Pow2(8 * length)
    ensures FromBytes(BigEndianOctets(n, length)) == n
  {
    if length > 0 {
      Pow2Add8(length - 1);
      FromBigEndianOctets(n / 256, length - 1);
      var bs := BigEndianOctets(n, length);
      assert bs[..|bs| - 1] == BigEndianOctets(n / 256, length - 1);
    }
  }

  lemma {:induction false} FromBytesBound(bs: seq<byte>)
    ensures FromBytes(bs) < Pow2(8 * |bs|)
  {
    if |bs| > 0 {
      FromBytesBound(bs[..|bs| - 1]);
      Pow2Add8(|bs| - 1);
    }
  }

  lemma {:induction false} FromBytesLowerBound(bs: seq<byte>)
    requires |bs| > 0 && bs[0] != 0
    ensures FromBytes(bs) >= Pow2(8 * (|bs| - 1))
  {
    if |bs| > 1 {
      var init := bs[..|bs| - 1];
      assert init[0] == bs[0];
      FromBytesLowerBound(init);
      Pow2Add8(|bs| - 2);
    }
  }

  lemma {:induction false} LeadingZero(bs: seq<byte>)
    requires |bs| > 0 && bs[0] == 0
    ensures FromBytes(bs) == FromBytes(bs[1..])
  {
    if |bs| > 1 {
      var init := bs[..|bs| - 1];
      LeadingZero(init);
      assert init[1..] == bs[1..][..|bs[1..]| - 1];
    }
  }

  lemma {:induction false} SameLengthUnique(bs: seq<byte>, cs: seq<byte>)
    requires |bs| == |cs| && FromBytes(bs) == FromBytes(cs)
    ensures bs == cs
  {
    if |bs| > 0 {
      var i := |bs| - 1;
      assert bs[i] == FromBytes(bs) % 256 && cs[i] == FromBytes(cs) % 256;
      SameLengthUnique(bs[..i], cs[..i]);
      assert bs == bs[..i] + [bs[i]] && cs == cs[..i] + [cs[i]];
    }
  }
}
