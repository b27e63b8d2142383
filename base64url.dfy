/**
 * `base64.urlsafe_b64encode(bs).decode('utf-8').rstrip("=")` from
 * server.py:61-62: base64 with the URL- and filename-safe alphabet of
 * section 5 of RFC 4648, with its padding stripped; and a decoder that is its
 * exact inverse.
 */
module Base64Url {
  import opened Wrappers
  import opened BigEndian

  type sextet = x: int | 0 <= x < 64

  /** Table 2 of RFC 4648 ("URL and Filename safe" alphabet). */
  function Symbol(v: sextet): (c: char)
    ensures c != '='
  {
    if v < 26 then ('A' as int + v) as char
    else if v < 52 then ('a' as int + (v - 26)) as char
    else if v < 62 then ('0' as int + (v - 52)) as char
    else if v == 62 then '-'
    else '_'
  }

  /** The value of one alphabet character; `None` for any other character. */
  function SymbolValue(c: char): (r: Option<sextet>)
    ensures r.Some? ==> Symbol(r.value) == c
    ensures c == '=' ==> r.None?
  {
    if 'A' <= c <= 'Z' then Some(c as int - 'A' as int)
    else if 'a' <= c <= 'z' then Some(c as int - 'a' as int + 26)
    else if '0' <= c <= '9' then Some(c as int - '0' as int + 52)
    else if c == '-' then Some(62)
    else if c == '_' then Some(63)
    else None
  }

  lemma SymbolValueOfSymbol(v: sextet)
    ensures SymbolValue(Symbol(v)) == Some(v)
  {
  }

  /** Four characters for three octets (section 4 of RFC 4648). */
  function Quantum(b0: byte, b1: byte, b2: byte): string
  {
    [Symbol(b0 / 4), Symbol(b0 % 4 * 16 + b1 / 16), Symbol(b1 % 16 * 4 + b2 / 64), Symbol(b2 % 64)]
  }

  /** `base64.urlsafe_b64encode`: padded to a multiple of four characters. */
  function UrlsafeB64Encode(bs: seq<byte>): (s: string)
    ensures |s| == 4 * ((|bs| + 2) / 3)
    decreases |bs|
  {
    if |bs| == 0 then []
    else if |bs| == 1 then [Symbol(bs[0] / 4), Symbol(bs[0] % 4 * 16), '=', '=']
    else if |bs| == 2 then [Symbol(bs[0] / 4), Symbol(bs[0] % 4 * 16 + bs[1] / 16), Symbol(bs[1] % 16 * 4), '=']
    else Quantum(bs[0], bs[1], bs[2]) + UrlsafeB64Encode(bs[3..])
  }

  /**
   * `s.rstrip(c)`: the longest prefix of `s` that does not end in `c` and
   * after which `s` holds only `c`.
   */
  function RStrip(s: string, c: char): (r: string)
    ensures r <= s
    ensures |r| == 0 || r[|r| - 1] != c
    ensures forall i :: |r| <= i < |s| ==> s[i] == c
    decreases |s|
  {
    if |s| > 0 && s[|s| - 1] == c then RStrip(s[..|s| - 1], c) else s
  }

  /** The unpadded base64url text the source emits for an octet string. */
  function Base64UrlEncode(bs: seq<byte>): string
  {
    RStrip(UrlsafeB64Encode(bs), '=')
  }

  /** The octets carried by four, three or two alphabet values (a last partial quantum). */
  function Octets(v0: sextet, v1: sextet, v2: sextet, v3: sextet): seq<byte>
  {
    [v0 * 4 + v1 / 16, v1 % 16 * 16 + v2 / 4, v2 % 4 * 64 + v3]
  }

  /**
   * Decoder for unpadded base64url: rejects characters outside the alphabet,
   * a dangling single character, and non-zero bits left over in the last
   * character (the canonical form of section 3.5 of RFC 4648).
   */
  function Base64UrlDecode(s: string): Option<seq<byte>>
    decreases |s|
  {
    if |s| == 0 then Some([])
    else if |s| == 1 then None
    else
      var v0, v1 := SymbolValue(s[0]), SymbolValue(s[1]);
      if v0.None? || v1.None? then None
      else if |s| == 2 then
        if v1.value % 16 == 0 then Some(Octets(v0.value, v1.value, 0, 0)[..1]) else None
      else
        var v2 := SymbolValue(s[2]);
        if v2.None? then None
        else if |s| == 3 then
          if v2.value % 4 == 0 then Some(Octets(v0.value, v1.value, v2.value, 0)[..2]) else None
        else
          var v3 := SymbolValue(s[3]);
          if v3.None? then None
          else match Base64UrlDecode(s[4..])
            case None => None
            case Some(rest) => Some(Octets(v0.value, v1.value, v2.value, v3.value) + rest)
  }

  // ---------------------------------------------------------------------------
  // Properties of the encoding

  /**
   * The emitted text has no `=`, only alphabet characters, and the unpadded
   * length `ceil(4 * |bs| / 3)`.
   */
  lemma {:induction false} EncodeShape(bs: seq<byte>)
    ensures |Base64UrlEncode(bs)| == (4 * |bs| + 2) / 3
    ensures forall i :: 0 <= i < |Base64UrlEncode(bs)| ==> SymbolValue(Base64UrlEncode(bs)[i]).Some?
    decreases |bs|
  {
    StripQuanta(bs);
    if |bs| >= 3 {
      EncodeShape(bs[3..]);
    }
  }

  /** Decoding the emitted text gives back the octets. */
  lemma {:induction false} DecodeEncode(bs: seq<byte>)
    ensures Base64UrlDecode(Base64UrlEncode(bs)) == Some(bs)
    decreases |bs|
  {
    if |bs| >= 3 {
      var rest := bs[3..];
      DecodeEncode(rest);
      StripQuanta(bs);
      DecodeQuantum(bs[0], bs[1], bs[2], Base64UrlEncode(rest));
      assert bs == [bs[0], bs[1], bs[2]] + rest;
    } else {
      DecodeEncodeLastQuantum(bs);
    }
  }

  /** Every text the decoder accepts is exactly what the encoder emits for its result. */
  lemma {:induction false} EncodeDecode(s: string, bs: seq<byte>)
    requires Base64UrlDecode(s) == Some(bs)
    ensures Base64UrlEncode(bs) == s
    decreases |s|
  {
    StripQuanta(bs);
    if 2 <= |s| {
      var v0, v1 := SymbolValue(s[0]).value, SymbolValue(s[1]).value;
      var v2 := if |s| >= 3 then SymbolValue(s[2]).value else 0;
      var v3 := if |s| >= 4 then SymbolValue(s[3]).value else 0;
      QuantumOfOctets(v0, v1, v2, v3);
      if |s| >= 4 {
        var rest := Base64UrlDecode(s[4..]).value;
        assert bs == Octets(v0, v1, v2, v3) + rest;
        EncodeDecode(s[4..], rest);
        assert bs[3..] == rest;
        assert s == s[..4] + s[4..];
      }
    }
  }

  // ---------------------------------------------------------------------------
  // Helper lemmas

  /** Re-encoding the octets of four values gives back those values. */
  lemma QuantumOfOctets(v0: sextet, v1: sextet, v2: sextet, v3: sextet)
    ensures var o := Octets(v0, v1, v2, v3);
      && o[0] / 4 == v0
      && o[0] % 4 * 16 + o[1] / 16 == v1
      && o[1] % 16 * 4 + o[2] / 64 == v2
      && o[2] % 64 == v3
      && (v1 % 16 == 0 ==> o[0] % 4 * 16 == v1)
      && (v2 % 4 == 0 ==> o[1] % 16 * 4 == v2)
  {
  }

  /** Decoding the sextets of three octets gives back those octets. */
  lemma OctetsOfQuantum(b0: byte, b1: byte, b2: byte)
    ensures Octets(b0 / 4, b0 % 4 * 16 + b1 / 16, b1 % 16 * 4 + b2 / 64, b2 % 64) == [b0, b1, b2]
    ensures (b0 % 4 * 16 + b1 / 16) % 16 == b1 / 16
    ensures (b1 % 16 * 4 + b2 / 64) % 4 == b2 / 64
  {
  }

  lemma DecodeEncodeLastQuantum(bs: seq<byte>)
    requires |bs| < 3
    ensures Base64UrlDecode(Base64UrlEncode(bs)) == Some(bs)
  {
    StripQuanta(bs);
    if |bs| == 1 {
      DecodeOne(bs[0]);
      assert bs == [bs[0]];
    } else if |bs| == 2 {
      DecodeTwo(bs[0], bs[1]);
      assert bs == [bs[0], bs[1]];
    }
  }

  lemma DecodeOne(b0: byte)
    ensures Base64UrlDecode([Symbol(b0 / 4), Symbol(b0 % 4 * 16)]) == Some([b0])
  {
    var s := [Symbol(b0 / 4), Symbol(b0 % 4 * 16)];
    SymbolValueOfSymbol(b0 / 4);
    SymbolValueOfSymbol(b0 % 4 * 16);
    OctetsOfQuantum(b0, 0, 0);
    assert Octets(b0 / 4, b0 % 4 * 16, 0, 0)[..1] == [b0];
  }

  lemma DecodeTwo(b0: byte, b1: byte)
    ensures Base64UrlDecode([Symbol(b0 / 4), Symbol(b0 % 4 * 16 + b1 / 16), Symbol(b1 % 16 * 4)]) == Some([b0, b1])
  {
    SymbolValueOfSymbol(b0 / 4);
    SymbolValueOfSymbol(b0 % 4 * 16 + b1 / 16);
    SymbolValueOfSymbol(b1 % 16 * 4);
    OctetsOfQuantum(b0, b1, 0);
    assert Octets(b0 / 4, b0 % 4 * 16 + b1 / 16, b1 % 16 * 4, 0)[..2] == [b0, b1];
  }

  lemma DecodeQuantum(b0: byte, b1: byte, b2: byte, rest: string)
    ensures Base64UrlDecode(Quantum(b0, b1, b2) + rest) ==
      match Base64UrlDecode(rest)
      case None => None
      case Some(r) => Some([b0, b1, b2] + r)
  {
    var s := Quantum(b0, b1, b2) + rest;
    SymbolValueOfSymbol(b0 / 4);
    SymbolValueOfSymbol(b0 % 4 * 16 + b1 / 16);
    SymbolValueOfSymbol(b1 % 16 * 4 + b2 / 64);
    SymbolValueOfSymbol(b2 % 64);
    OctetsOfQuantum(b0, b1, b2);
    assert s[4..] == rest;
  }

  /** Stripping only touches the padding of the last quantum. */
  lemma StripQuanta(bs: seq<byte>)
    ensures |bs| == 0 ==> Base64UrlEncode(bs) == []
    ensures |bs| == 1 ==> Base64UrlEncode(bs) == [Symbol(bs[0] / 4), Symbol(bs[0] % 4 * 16)]
    ensures |bs| == 2 ==>
      Base64UrlEncode(bs) == [Symbol(bs[0] / 4), Symbol(bs[0] % 4 * 16 + bs[1] / 16), Symbol(bs[1] % 16 * 4)]
    ensures |bs| >= 3 ==> Base64UrlEncode(bs) == Quantum(bs[0], bs[1], bs[2]) + Base64UrlEncode(bs[3..])
  {
    var s := UrlsafeB64Encode(bs);
    if |bs| == 1 {
      RStripAppend(s[..2], "==", '=');
      assert s == s[..2] + "==";
      assert RStrip("==", '=') == [];
    } else if |bs| == 2 {
      RStripAppend(s[..3], "=", '=');
      assert s == s[..3] + "=";
      assert RStrip("=", '=') == [];
    } else if |bs| >= 3 {
      RStripAppend(Quantum(bs[0], bs[1], bs[2]), UrlsafeB64Encode(bs[3..]), '=');
    }
  }

  lemma {:induction false} RStripAppend(a: string, b: string, c: char)
    requires |a| > 0 && a[|a| - 1] != c
    ensures RStrip(a + b, c) == a + RStrip(b, c)
    decreases |b|
  {
    if |b| > 0 && b[|b| - 1] == c {
      assert (a + b)[..|a + b| - 1] == a + b[..|b| - 1];
      RStripAppend(a, b[..|b| - 1], c);
    } else if |b| == 0 {
      assert a + b == a;
    }
  }
}
