/** Decoding of the base64url segments of a compact token (lib/jwt.ts:33-47):
    the url alphabet is mapped back to the standard one, the padding that
    section 5 of RFC 4648 lets base64url omit is restored, the result goes
    through `atob` (the forgiving-base64 decode of the WHATWG Infra standard,
    section 4.2 of RFC 4648 for the alphabet), and the resulting binary
    string is copied byte by byte into a `Uint8Array`.

    An unpadded base64url encoder, the form tokens are written in, is given
    alongside as the reference the decoder is proved to invert. */
module Base64Url {
  import opened Optional

  type byte = x: int | 0 <= x < 256
  type sextet = x: int | 0 <= x < 64

  // ---------------------------------------------------------------------
  // Alphabet swap (lib/jwt.ts:34)

  /** `s.replace(/from/g, to)` for single characters. */
  function ReplaceAll(s: string, from: char, to: char): (r: string)
    ensures |r| == |s|
    ensures forall i :: 0 <= i < |s| ==> r[i] == (if s[i] == from then to else s[i])
  {
    if s == [] then [] else [if s[0] == from then to else s[0]] + ReplaceAll(s[1..], from, to)
  }

  /** The url-alphabet characters and their standard counterparts. */
  function NormalizeChar(c: char): char {
    if c == '-' then '+' else if c == '_' then '/' else c
  }

  /** Every `-` becomes `+`, every `_` becomes `/`, nothing else moves. */
  function Normalize(segment: string): (r: string)
    ensures |r| == |segment|
    ensures forall i :: 0 <= i < |r| ==> r[i] == NormalizeChar(segment[i])
    ensures '-' !in r && '_' !in r
  {
    ReplaceAll(ReplaceAll(segment, '-', '+'), '_', '/')
  }

  // ---------------------------------------------------------------------
  // Padding restoration (lib/jwt.ts:35-36)

  /** `(4 - (n % 4 || 4)) % 4`: the least number of `=` that brings the
      length to a multiple of four. */
  function PaddingLength(n: nat): (p: nat)
    ensures p <= 3 && (n + p) % 4 == 0
  {
    var rem := n % 4;
    (4 - (if rem != 0 then rem else 4)) % 4
  }

  /** `c.repeat(n)` */
  function Repeat(c: char, n: nat): (r: string)
    ensures |r| == n && forall i :: 0 <= i < n ==> r[i] == c
  {
    if n == 0 then [] else [c] + Repeat(c, n - 1)
  }

  /** The string handed to `atob`. */
  function Padded(segment: string): (r: string)
    ensures |r| % 4 == 0
    ensures |r| == |segment| + PaddingLength(|segment|)
    ensures r[..|segment|] == Normalize(segment)
    ensures forall i :: |segment| <= i < |r| ==> r[i] == '='
  {
    var normalized := Normalize(segment);
    normalized + Repeat('=', PaddingLength(|normalized|))
  }

  // ---------------------------------------------------------------------
  // atob: forgiving-base64 decode, then the bytes as a binary string

  predicate IsAsciiWhitespace(c: char) {
    c == '\t' || c == '\n' || c == '\U{000C}' || c == '\r' || c == ' '
  }

  function RemoveAsciiWhitespace(s: string): (r: string)
    ensures |r| <= |s|
    ensures forall i :: 0 <= i < |r| ==> !IsAsciiWhitespace(r[i])
    ensures (forall i :: 0 <= i < |s| ==> !IsAsciiWhitespace(s[i])) ==> r == s
  {
    if s == [] then []
    else if IsAsciiWhitespace(s[0]) then RemoveAsciiWhitespace(s[1..])
    else [s[0]] + RemoveAsciiWhitespace(s[1..])
  }

  /** With a length that is a multiple of four, one or two trailing `=` go. */
  function StripPadding(d: string): (r: string)
    ensures |d| % 4 == 0 && |d| >= 2 && d[|d| - 2..] == "==" ==> r == d[..|d| - 2]
    ensures |d| % 4 == 0 && |d| >= 1 && d[|d| - 1] == '=' && !(|d| >= 2 && d[|d| - 2..] == "==") ==> r == d[..|d| - 1]
    ensures (|d| % 4 != 0 || |d| == 0 || d[|d| - 1] != '=') ==> r == d
  {
    if |d| % 4 == 0 && |d| >= 2 && d[|d| - 2..] == "==" then d[..|d| - 2]
    else if |d| % 4 == 0 && |d| >= 1 && d[|d| - 1] == '=' then d[..|d| - 1]
    else d
  }

  predicate IsBase64Char(c: char) {
    ('A' <= c <= 'Z') || ('a' <= c <= 'z') || ('0' <= c <= '9') || c == '+' || c == '/'
  }

  predicate AllBase64(d: string) {
    forall i :: 0 <= i < |d| ==> IsBase64Char(d[i])
  }

  /** The six-bit value of a standard-alphabet character. */
  function SextetOf(c: char): sextet
    requires IsBase64Char(c)
  {
    if 'A' <= c <= 'Z' then c as int - 'A' as int
    else if 'a' <= c <= 'z' then c as int - 'a' as int + 26
    else if '0' <= c <= '9' then c as int - '0' as int + 52
    else if c == '+' then 62
    else 63
  }

  function SextetsOf(d: string): (vs: seq<sextet>)
    requires AllBase64(d)
    ensures |vs| == |d| && forall i :: 0 <= i < |d| ==> vs[i] == SextetOf(d[i])
  {
    seq(|d|, i requires 0 <= i < |d| => SextetOf(d[i]))
  }

  /** Six bits per value, eight bits per byte; a final group of two or three
      values yields one or two bytes and its leftover bits are discarded. */
  function DecodeSextets(vs: seq<sextet>): (bs: seq<byte>)
    requires |vs| % 4 != 1
    ensures |bs| == |vs| * 3 / 4
    decreases |vs|
  {
    if |vs| < 2 then []
    else
      var v0, v1: int := vs[0], vs[1];
      if |vs| == 2 then [v0 * 4 + v1 / 16]
      else
        var v2: int := vs[2];
        if |vs| == 3 then [v0 * 4 + v1 / 16, (v1 % 16) * 16 + v2 / 4]
        else
          var v3: int := vs[3];
          [v0 * 4 + v1 / 16, (v1 % 16) * 16 + v2 / 4, (v2 % 4) * 64 + v3] + DecodeSextets(vs[4..])
  }

  /** A binary string: one character per byte, with that byte as its code. */
  function BinaryString(bs: seq<byte>): (r: string)
    ensures |r| == |bs| && forall i :: 0 <= i < |bs| ==> r[i] as int == bs[i]
  {
    seq(|bs|, i requires 0 <= i < |bs| => bs[i] as char)
  }

  /** `atob(data)`; `None` where it throws an InvalidCharacterError. */
  function Atob(data: string): (r: Option<string>)
    ensures r.Some? ==> forall i :: 0 <= i < |r.value| ==> r.value[i] as int < 256
  {
    var d := StripPadding(RemoveAsciiWhitespace(data));
    if |d| % 4 == 1 || !AllBase64(d) then None
    else Some(BinaryString(DecodeSextets(SextetsOf(d))))
  }

  // ---------------------------------------------------------------------
  // base64UrlToUint8Array (lib/jwt.ts:33-43)

  /** What a `Uint8Array` stores for each character code: its low eight bits. */
  function CharCodes(binary: string): (bs: seq<byte>)
    ensures |bs| == |binary|
    ensures forall i :: 0 <= i < |binary| && binary[i] as int < 256 ==> bs[i] == binary[i] as int
  {
    seq(|binary|, i requires 0 <= i < |binary| => binary[i] as int % 256)
  }

  /** The bytes a segment decodes to; `None` where decoding throws. */
  function Base64UrlDecode(segment: string): (r: Option<seq<byte>>)
    ensures r.None? <==> Atob(Padded(segment)).None?
    ensures r.Some? ==>
      var binary := Atob(Padded(segment)).value;
      |r.value| == |binary| && forall i :: 0 <= i < |binary| ==> r.value[i] == binary[i] as int
  {
    match Atob(Padded(segment))
    case None => None
    case Some(binary) => Some(CharCodes(binary))
  }

  /** The decoder as the source runs it: normalise, pad, `atob`, then fill a
      fresh byte array with the char codes of the binary string. */
  method Base64UrlToUint8Array(segment: string) returns (bytes: Option<array<byte>>)
    ensures bytes.None? <==> Atob(Padded(segment)).None?
    ensures bytes.Some? ==>
      var binary := Atob(Padded(segment)).value;
      bytes.value.Length == |binary|
      && forall i :: 0 <= i < |binary| ==> bytes.value[i] == binary[i] as int
    ensures bytes.Some? ==> Base64UrlDecode(segment) == Some(bytes.value[..])
    ensures bytes.Some? ==> fresh(bytes.value)
  {
    var normalized := Normalize(segment);
    var paddingLength := PaddingLength(|normalized|);
    var padded := normalized + Repeat('=', paddingLength);
    assert padded == Padded(segment);
    var decoded := Atob(padded);
    if decoded.None? {
      return None;
    }
    var a := CopyCharCodes(decoded.value);
    return Some(a);
  }

  /** The loop that fills a fresh `Uint8Array` from a binary string, one
      char code per element. */
  method CopyCharCodes(binary: string) returns (a: array<byte>)
    ensures fresh(a) && a[..] == CharCodes(binary)
  {
    a := new byte[|binary|];
    for i := 0 to |binary|
      invariant forall k :: 0 <= k < i ==> a[k] == binary[k] as int % 256
    {
      a[i] := binary[i] as int % 256;
    }
    assert a[..] == CharCodes(binary);
  }

  // ---------------------------------------------------------------------
  // The reference encoder and the round trip

  /** Three bytes to four six-bit values; a final one or two bytes give two or
      three values, zero-filled. */
  function Sextets(bs: seq<byte>): (vs: seq<sextet>)
    ensures |vs| % 4 != 1
    decreases |bs|
  {
    if bs == [] then []
    else
      var b0: int := bs[0];
      if |bs| == 1 then [b0 / 4, (b0 % 4) * 16]
      else
        var b1: int := bs[1];
        if |bs| == 2 then [b0 / 4, (b0 % 4) * 16 + b1 / 16, (b1 % 16) * 4]
        else
          var b2: int := bs[2];
          [b0 / 4, (b0 % 4) * 16 + b1 / 16, (b1 % 16) * 4 + b2 / 64, b2 % 64] + Sextets(bs[3..])
  }

  /** The alphabet of section 4 (standard) or section 5 (url) of RFC 4648. */
  function SextetChar(v: sextet, url: bool): char {
    if v < 26 then ('A' as int + v) as char
    else if v < 52 then ('a' as int + v - 26) as char
    else if v < 62 then ('0' as int + v - 52) as char
    else if v == 62 then (if url then '-' else '+')
    else (if url then '_' else '/')
  }

  function Render(vs: seq<sextet>, url: bool): (s: string)
    ensures |s| == |vs| && forall i :: 0 <= i < |vs| ==> s[i] == SextetChar(vs[i], url)
  {
    seq(|vs|, i requires 0 <= i < |vs| => SextetChar(vs[i], url))
  }

  /** Unpadded base64url, as the segments of a compact token are written. */
  function Base64UrlEncode(bs: seq<byte>): string {
    Render(Sextets(bs), true)
  }

  /** The two alphabets agree up to the swap, and the standard one is
      read back to the value it was written from. */
  lemma {:induction false} SextetCharFacts(v: sextet)
    ensures NormalizeChar(SextetChar(v, true)) == SextetChar(v, false)
    ensures IsBase64Char(SextetChar(v, false)) && SextetOf(SextetChar(v, false)) == v
    ensures !IsAsciiWhitespace(SextetChar(v, false)) && SextetChar(v, false) != '='
  {
  }

  /** The bit arithmetic of one group: the four values written for three
      bytes are read back to those bytes (zero bytes fill a short group). */
  lemma {:induction false} GroupInverse(b0: int, b1: int, b2: int)
    requires 0 <= b0 < 256 && 0 <= b1 < 256 && 0 <= b2 < 256
    ensures var v0, v1, v2, v3 := b0 / 4, (b0 % 4) * 16 + b1 / 16, (b1 % 16) * 4 + b2 / 64, b2 % 64;
      && v0 * 4 + v1 / 16 == b0
      && (v1 % 16) * 16 + v2 / 4 == b1
      && (v2 % 4) * 64 + v3 == b2
  {
  }

  /** A sequence of one or two bytes is read back from its values. */
  lemma {:induction false} ShortInverse(bs: seq<byte>)
    requires |bs| < 3
    ensures DecodeSextets(Sextets(bs)) == bs
  {
    if |bs| == 2 {
      GroupInverse(bs[0], bs[1], 0);
      assert bs == [bs[0], bs[1]];
    } else if |bs| == 1 {
      GroupInverse(bs[0], 0, 0);
      assert bs == [bs[0]];
    }
  }

  /** The first three bytes are read back from the first four values, and
      the rest is decoded from the rest. */
  lemma {:induction false} FirstGroupInverse(bs: seq<byte>)
    requires |bs| >= 3
    ensures DecodeSextets(Sextets(bs)) == bs[..3] + DecodeSextets(Sextets(bs[3..]))
  {
    var vs := Sextets(bs);
    GroupInverse(bs[0], bs[1], bs[2]);
    assert vs[4..] == Sextets(bs[3..]);
    assert bs[..3] == [bs[0], bs[1], bs[2]];
  }

  /** Decoding the values of a byte sequence gives the byte sequence back. */
  lemma {:induction false} DecodeSextetsInverse(bs: seq<byte>)
    ensures DecodeSextets(Sextets(bs)) == bs
    decreases |bs|
  {
    if |bs| >= 3 {
      FirstGroupInverse(bs);
      DecodeSextetsInverse(bs[3..]);
      assert bs == bs[..3] + bs[3..];
    } else {
      ShortInverse(bs);
    }
  }

  /** The url encoding, once normalised and padded, is the standard one
      followed by the padding. */
  lemma {:induction false} PaddedEncoding(vs: seq<sextet>)
    requires |vs| % 4 != 1
    ensures Padded(Render(vs, true)) == Render(vs, false) + Repeat('=', PaddingLength(|vs|))
  {
    var enc, std := Render(vs, true), Render(vs, false);
    forall i | 0 <= i < |vs| ensures Normalize(enc)[i] == std[i] {
      SextetCharFacts(vs[i]);
    }
    assert Normalize(enc) == std;
  }

  /** Stripping undoes the padding restored onto a string with no `=`. */
  lemma {:induction false} StripAddedPadding(std: string, p: nat)
    requires p <= 2 && (|std| + p) % 4 == 0
    requires |std| >= 1 ==> std[|std| - 1] != '='
    ensures StripPadding(std + Repeat('=', p)) == std
  {
    var padded := std + Repeat('=', p);
    var n := |padded|;
    if p == 2 {
      assert padded[n - 2..] == "==" by {
        assert padded[n - 2] == '=' && padded[n - 1] == '=';
      }
      assert padded[..n - 2] == std;
    } else if p == 1 {
      assert |std| >= 3;
      assert padded[n - 1] == '=';
      assert padded[n - 2..] != "==" by {
        assert padded[n - 2] == std[|std| - 1];
      }
      assert padded[..n - 1] == std;
    } else {
      assert padded == std;
    }
  }

  /** The standard rendering of six-bit values is in the alphabet, holds
      no whitespace and no `=`, and is read back to those values. */
  lemma {:induction false} StandardReadBack(vs: seq<sextet>)
    ensures AllBase64(Render(vs, false)) && SextetsOf(Render(vs, false)) == vs
    ensures forall i :: 0 <= i < |vs| ==> !IsAsciiWhitespace(Render(vs, false)[i]) && Render(vs, false)[i] != '='
  {
    var std := Render(vs, false);
    forall i | 0 <= i < |vs|
      ensures IsBase64Char(std[i]) && SextetOf(std[i]) == vs[i]
      ensures !IsAsciiWhitespace(std[i]) && std[i] != '='
    {
      SextetCharFacts(vs[i]);
    }
  }

  /** `atob` on input free of whitespace reads what remains once the padding
      is stripped. */
  lemma {:induction false} AtobWithoutWhitespace(data: string, d: string)
    requires forall i :: 0 <= i < |data| ==> !IsAsciiWhitespace(data[i])
    requires StripPadding(data) == d && |d| % 4 != 1 && AllBase64(d)
    ensures Atob(data) == Some(BinaryString(DecodeSextets(SextetsOf(d))))
  {
    assert RemoveAsciiWhitespace(data) == data;
  }

  /** The standard rendering followed by its padding holds no whitespace,
      and stripping the padding leaves the rendering, all in the alphabet. */
  lemma {:induction false} PaddedStandardFacts(vs: seq<sextet>)
    requires |vs| % 4 != 1
    ensures var padded := Render(vs, false) + Repeat('=', PaddingLength(|vs|));
      && (forall i :: 0 <= i < |padded| ==> !IsAsciiWhitespace(padded[i]))
      && StripPadding(padded) == Render(vs, false)
  {
    var std := Render(vs, false);
    var p := PaddingLength(|vs|);
    var padded := std + Repeat('=', p);
    StandardReadBack(vs);
    assert p <= 2;
    StripAddedPadding(std, p);
    forall i | 0 <= i < |padded| ensures !IsAsciiWhitespace(padded[i]) {
      if i >= |std| {
        assert padded[i] == '=';
      }
    }
  }

  /** `atob` removes exactly the padding the decoder added, and reads each
      standard character back to its value. */
  lemma {:induction false} AtobReadsStandard(vs: seq<sextet>)
    requires |vs| % 4 != 1
    ensures Atob(Render(vs, false) + Repeat('=', PaddingLength(|vs|)))
         == Some(BinaryString(DecodeSextets(vs)))
  {
    PaddedStandardFacts(vs);
    StandardReadBack(vs);
    AtobWithoutWhitespace(Render(vs, false) + Repeat('=', PaddingLength(|vs|)), Render(vs, false));
  }

  /** Decoding the unpadded base64url encoding of any byte sequence yields
      exactly that sequence. */
  lemma {:induction false} RoundTrip(bs: seq<byte>)
    ensures Base64UrlDecode(Base64UrlEncode(bs)) == Some(bs)
  {
    var vs := Sextets(bs);
    PaddedEncoding(vs);
    AtobReadsStandard(vs);
    DecodeSextetsInverse(bs);
    assert CharCodes(BinaryString(bs)) == bs;
  }

  /** A segment whose length leaves remainder 1 modulo 4 never decodes, unless
      whitespace inside it shortens what `atob` sees. */
  lemma {:induction false} ImpossibleLengthRejected(segment: string)
    requires |segment| % 4 == 1
    requires forall i :: 0 <= i < |segment| ==> !IsAsciiWhitespace(segment[i])
    ensures Base64UrlDecode(segment).None?
  {
    var normalized := Normalize(segment);
    var padded := normalized + Repeat('=', 3);
    assert PaddingLength(|normalized|) == 3;
    assert Padded(segment) == padded;
    assert RemoveAsciiWhitespace(padded) == padded;
    var d := StripPadding(padded);
    assert padded[|padded| - 2..] == "==";
    assert d == normalized + "=";
    assert !IsBase64Char(d[|d| - 1]);
  }
}
