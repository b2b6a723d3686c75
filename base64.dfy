/**
 * The browser primitives `btoa` and `atob`: base64 as defined in section 4 of
 * RFC 4648 for encoding, and the WHATWG Infra Standard's "forgiving-base64 decode" for
 * decoding. A byte is an integer below 256 and a sextet one below 64; the bit
 * fields of a group are taken apart with division and remainder by powers of two.
 */
module Base64 {
  import opened Wrappers

  type byte = x: int | 0 <= x < 256

  /** A 6-bit value, the unit one alphabet character encodes. */
  type sextet = x: int | 0 <= x < 64

  /** A character of the base64 alphabet (RFC 4648, section 4, Table 1), pad excluded. */
  predicate IsBase64Char(c: char)
  {
    ('A' <= c <= 'Z') || ('a' <= c <= 'z') || ('0' <= c <= '9') || c == '+' || c == '/'
  }

  /** The pad character. */
  const Pad: char := '='

  /** Every character of `s` is an alphabet character. */
  predicate AllBase64(s: string)
  {
    forall i :: 0 <= i < |s| ==> IsBase64Char(s[i])
  }

  /** The character that encodes the 6-bit value `v`. */
  function CharOf(n: sextet): (c: char)
    ensures IsBase64Char(c)
  {
    if n < 26 then (65 + n) as char
    else if n < 52 then (97 + n - 26) as char
    else if n < 62 then (48 + n - 52) as char
    else if n == 62 then '+'
    else '/'
  }

  /** The 6-bit value an alphabet character stands for. */
  function ValueOf(c: char): (v: sextet)
    requires IsBase64Char(c)
    ensures CharOf(v) == c
  {
    if 'A' <= c <= 'Z' then c as int - 65
    else if 'a' <= c <= 'z' then c as int - 71
    else if '0' <= c <= '9' then c as int + 4
    else if c == '+' then 62
    else 63
  }

  /** Decoding a character undoes encoding a 6-bit value. */
  lemma ValueOfCharOf(v: sextet)
    ensures ValueOf(CharOf(v)) == v
  {
  }

  // ---------------------------------------------------------------------------
  // Encoding (RFC 4648, section 4)

  /** The four characters of a full 24-bit group. */
  function EncodeGroup(b0: byte, b1: byte, b2: byte): (r: string)
    ensures |r| == 4 && AllBase64(r)
  {
    [CharOf(b0 / 4), CharOf(b0 % 4 * 16 + b1 / 16), CharOf(b1 % 16 * 4 + b2 / 64), CharOf(b2 % 64)]
  }

  /** The two characters of a final single byte, its four spare bits zero. */
  function EncodeFinalSingle(b0: byte): (r: string)
    ensures |r| == 2 && AllBase64(r)
  {
    [CharOf(b0 / 4), CharOf(b0 % 4 * 16)]
  }

  /** The three characters of a final pair of bytes, its two spare bits zero. */
  function EncodeFinalPair(b0: byte, b1: byte): (r: string)
    ensures |r| == 3 && AllBase64(r)
  {
    [CharOf(b0 / 4), CharOf(b0 % 4 * 16 + b1 / 16), CharOf(b1 % 16 * 4)]
  }

  /** The alphabet characters of the encoding: four per full group, two or three for a final partial group. */
  function EncodeUnpadded(b: seq<byte>): (r: string)
    ensures |r| % 4 != 1 && AllBase64(r)
    decreases |b|
  {
    if |b| == 0 then []
    else if |b| == 1 then EncodeFinalSingle(b[0])
    else if |b| == 2 then EncodeFinalPair(b[0], b[1])
    else
      var g, rest := EncodeGroup(b[0], b[1], b[2]), EncodeUnpadded(b[3..]);
      AllBase64Concat(g, rest);
      ShiftMod(|rest|);
      g + rest
  }

  /** Alphabet text followed by alphabet text is alphabet text. */
  lemma AllBase64Concat(a: string, b: string)
    requires AllBase64(a) && AllBase64(b)
    ensures AllBase64(a + b)
  {
    assert forall i :: 0 <= i < |b| ==> (a + b)[|a| + i] == b[i];
  }

  /** The unpadded encoding has four characters per full group and one more than the bytes of a final partial group. */
  lemma {:induction false} EncodeUnpaddedLength(b: seq<byte>)
    ensures |EncodeUnpadded(b)| == 4 * (|b| / 3) + (if |b| % 3 == 0 then 0 else |b| % 3 + 1)
    decreases |b|
  {
    if |b| >= 3 {
      EncodeUnpaddedLength(b[3..]);
    }
  }

  /** The pad characters that complete the final quantum of an `n`-byte input. */
  function Padding(n: nat): string
  {
    if n % 3 == 1 then [Pad, Pad] else if n % 3 == 2 then [Pad] else []
  }

  /** Adding a whole group leaves the position within a group unchanged. */
  lemma ShiftMod(x: nat)
    ensures (x + 4) % 4 == x % 4 && (x + 3) % 3 == x % 3
  {
  }

  /** A multiple of four characters once the final quantum is padded. */
  lemma {:induction false} EncodeUnpaddedFinal(b: seq<byte>)
    ensures |EncodeUnpadded(b)| % 4 == (if |b| % 3 == 0 then 0 else |b| % 3 + 1)
    decreases |b|
  {
    if |b| >= 3 {
      var rest := EncodeUnpadded(b[3..]);
      EncodeUnpaddedFinal(b[3..]);
      assert |EncodeUnpadded(b)| == |rest| + 4;
      ShiftMod(|rest|);
      ShiftMod(|b| - 3);
    }
  }

  /** Base64 encoding with padding. */
  function Encode(b: seq<byte>): (r: string)
    ensures |r| % 4 == 0
    ensures forall i :: 0 <= i < |r| ==> IsBase64Char(r[i]) || r[i] == Pad
  {
    var u := EncodeUnpadded(b);
    EncodeUnpaddedFinal(b);
    PaddedAlphabet(u, Padding(|b|));
    PaddingCompletes(|u|, |b|);
    u + Padding(|b|)
  }

  /** Four characters for every started group of three bytes. */
  lemma EncodeLength(b: seq<byte>)
    ensures |Encode(b)| == 4 * ((|b| + 2) / 3)
  {
    EncodeUnpaddedLength(b);
    var q := |b| / 3;
    assert |b| == 3 * q + |b| % 3;
    if |b| % 3 == 0 {
      assert (|b| + 2) / 3 == q;
    } else {
      assert (|b| + 2) / 3 == q + 1;
    }
  }

  /** The padding of an `n`-byte input completes the final quantum of its unpadded encoding. */
  lemma PaddingCompletes(len: nat, n: nat)
    requires len % 4 == (if n % 3 == 0 then 0 else n % 3 + 1)
    ensures (len + |Padding(n)|) % 4 == 0
  {
    var q := len / 4;
    assert len == 4 * q + len % 4;
    assert len + |Padding(n)| == 4 * q + (if n % 3 == 0 then 0 else 4);
  }

  /** Alphabet text followed by pad characters holds only alphabet and pad characters. */
  lemma PaddedAlphabet(u: string, p: string)
    requires AllBase64(u) && forall i :: 0 <= i < |p| ==> p[i] == Pad
    ensures forall i :: 0 <= i < |u + p| ==> IsBase64Char((u + p)[i]) || (u + p)[i] == Pad
  {
    forall i | 0 <= i < |u + p|
      ensures IsBase64Char((u + p)[i]) || (u + p)[i] == Pad
    {
      if i < |u| {
        assert (u + p)[i] == u[i];
      } else {
        assert (u + p)[i] == p[i - |u|];
      }
    }
  }

  // ---------------------------------------------------------------------------
  // Forgiving-base64 decode (WHATWG Infra Standard, "forgiving-base64 decode")

  /** ASCII whitespace as the WHATWG Infra Standard defines it: tab, line feed, form feed, carriage return, space. */
  predicate IsAsciiWhitespace(c: char)
  {
    c == '\t' || c == '\n' || c == '\U{000C}' || c == '\r' || c == ' '
  }

  /** Step 1: remove all ASCII whitespace. */
  function RemoveAsciiWhitespace(s: string): (r: string)
    ensures |r| <= |s|
    ensures forall i :: 0 <= i < |r| ==> !IsAsciiWhitespace(r[i])
    ensures (forall i :: 0 <= i < |s| ==> !IsAsciiWhitespace(s[i])) ==> r == s
  {
    if s == [] then []
    else if IsAsciiWhitespace(s[0]) then RemoveAsciiWhitespace(s[1..])
    else [s[0]] + RemoveAsciiWhitespace(s[1..])
  }

  /** Step 2: when the length is a multiple of four, drop one or two trailing pad characters. */
  function RemovePadding(s: string): (r: string)
  {
    if |s| % 4 != 0 then s
    else if |s| >= 2 && s[|s| - 1] == Pad && s[|s| - 2] == Pad then s[..|s| - 2]
    else if |s| >= 1 && s[|s| - 1] == Pad then s[..|s| - 1]
    else s
  }

  /** The three bytes of a group of four characters. */
  function DecodeGroup(c0: char, c1: char, c2: char, c3: char): (r: seq<byte>)
    requires IsBase64Char(c0) && IsBase64Char(c1) && IsBase64Char(c2) && IsBase64Char(c3)
    ensures |r| == 3
  {
    [ValueOf(c0) * 4 + ValueOf(c1) / 16, ValueOf(c1) % 16 * 16 + ValueOf(c2) / 4, ValueOf(c2) % 4 * 64 + ValueOf(c3)]
  }

  /** The byte of a final pair of characters; the spare bits are discarded. */
  function DecodeFinalPair(c0: char, c1: char): (r: seq<byte>)
    requires IsBase64Char(c0) && IsBase64Char(c1)
    ensures |r| == 1
  {
    [ValueOf(c0) * 4 + ValueOf(c1) / 16]
  }

  /** The two bytes of a final triple of characters; the spare bits are discarded. */
  function DecodeFinalTriple(c0: char, c1: char, c2: char): (r: seq<byte>)
    requires IsBase64Char(c0) && IsBase64Char(c1) && IsBase64Char(c2)
    ensures |r| == 2
  {
    [ValueOf(c0) * 4 + ValueOf(c1) / 16, ValueOf(c1) % 16 * 16 + ValueOf(c2) / 4]
  }

  /** Steps 5 to 9: six bits per character, a byte per eight bits, a final partial group's spare bits discarded. */
  function DecodeUnpadded(s: string): (b: seq<byte>)
    requires AllBase64(s) && |s| % 4 != 1
    decreases |s|
  {
    if |s| == 0 then []
    else if |s| == 2 then DecodeFinalPair(s[0], s[1])
    else if |s| == 3 then DecodeFinalTriple(s[0], s[1], s[2])
    else DecodeGroup(s[0], s[1], s[2], s[3]) + DecodeUnpadded(s[4..])
  }

  /** Three bytes per group of four characters, one fewer than the characters of a final partial group. */
  lemma {:induction false} DecodeUnpaddedLength(s: string)
    requires AllBase64(s) && |s| % 4 != 1
    ensures |DecodeUnpadded(s)| == 3 * (|s| / 4) + (if |s| % 4 == 0 then 0 else |s| % 4 - 1)
    decreases |s|
  {
    if |s| >= 4 {
      DecodeUnpaddedLength(s[4..]);
    }
  }

  /** Forgiving-base64 decode: the bytes, or failure (steps 3 and 4). Text of alphabet
      characters only, of any length but one more than a multiple of four, decodes as it is. */
  function ForgivingDecode(s: string): (r: Option<seq<byte>>)
    ensures AllBase64(s) && |s| % 4 != 1 ==> r == Some(DecodeUnpadded(s))
    ensures AllBase64(s) && |s| % 4 == 1 ==> r == None
    // Never more bytes than characters: three bytes per four characters at most.
    ensures r.Some? ==> |r.value| <= |s|
  {
    var d := RemovePadding(RemoveAsciiWhitespace(s));
    if |d| % 4 == 1 || !AllBase64(d) then None
    else
      DecodeUnpaddedLength(d);
      Some(DecodeUnpadded(d))
  }

  /** A character that is neither alphabet, pad nor ASCII whitespace makes the decode fail. */
  lemma StrayCharacterFails(s: string, i: nat)
    requires i < |s| && !IsBase64Char(s[i]) && !IsAsciiWhitespace(s[i]) && s[i] != Pad
    ensures ForgivingDecode(s) == None
  {
    var c := s[i];
    var w := RemoveAsciiWhitespace(s);
    WhitespaceRemovalKeeps(s, i);
    var d := RemovePadding(w);
    PaddingRemovalKeeps(w, c);
    var j :| 0 <= j < |d| && d[j] == c;
    assert !IsBase64Char(d[j]);
  }

  /** Removing whitespace keeps every other character. */
  lemma {:induction false} WhitespaceRemovalKeeps(s: string, i: nat)
    requires i < |s| && !IsAsciiWhitespace(s[i])
    ensures s[i] in RemoveAsciiWhitespace(s)
  {
    if i == 0 {
      assert RemoveAsciiWhitespace(s) == [s[0]] + RemoveAsciiWhitespace(s[1..]);
    } else {
      WhitespaceRemovalKeeps(s[1..], i - 1);
      assert s[1..][i - 1] == s[i];
    }
  }

  /** Removing padding keeps every character that is not a pad. */
  lemma PaddingRemovalKeeps(s: string, c: char)
    requires c in s && c != Pad
    ensures c in RemovePadding(s)
  {
    var j :| 0 <= j < |s| && s[j] == c;
    var d := RemovePadding(s);
    assert d == s[..|d|];
    assert j < |d|;
    assert d[j] == c;
  }

  // ---------------------------------------------------------------------------
  // Strings as bytes

  /** Every character is at most U+00FF, so that it fits in a byte. */
  predicate IsByteString(s: string)
  {
    forall i :: 0 <= i < |s| ==> s[i] <= '\U{00FF}'
  }

  /** The bytes of a byte string, one per character. */
  function ToBytes(s: string): (b: seq<byte>)
    requires IsByteString(s)
    ensures |b| == |s|
  {
    seq(|s|, i requires 0 <= i < |s| => s[i] as int)
  }

  /** The string with one character per byte. */
  function FromBytes(b: seq<byte>): (s: string)
    ensures |s| == |b| && IsByteString(s)
    ensures forall i :: 0 <= i < |b| ==> s[i] as int == b[i] as int
  {
    seq(|b|, i requires 0 <= i < |b| => b[i] as char)
  }

  /** `btoa(s)`: throws (here `None`) when a character is above U+00FF. */
  function Btoa(s: string): (r: Option<string>)
    ensures r.Some? <==> IsByteString(s)
    ensures r.Some? ==> |r.value| % 4 == 0
    ensures r.Some? ==> forall i :: 0 <= i < |r.value| ==> IsBase64Char(r.value[i]) || r.value[i] == Pad
  {
    if IsByteString(s) then Some(Encode(ToBytes(s))) else None
  }

  /** `atob(s)`: throws (here `None`) when forgiving-base64 decode fails. */
  function Atob(s: string): (r: Option<string>)
    ensures r.Some? <==> ForgivingDecode(s).Some?
    ensures r.Some? ==> IsByteString(r.value) && |r.value| == |ForgivingDecode(s).value|
  {
    match ForgivingDecode(s)
    case Some(b) => Some(FromBytes(b))
    case None => None
  }

  // ---------------------------------------------------------------------------
  // Round trip

  /** Decoding a full group undoes encoding it. */
  lemma GroupRoundTrip(b0: byte, b1: byte, b2: byte)
    ensures var c0, c1, c2, c3 := b0 / 4, b0 % 4 * 16 + b1 / 16, b1 % 16 * 4 + b2 / 64, b2 % 64;
            && c0 < 64 && c1 < 64 && c2 < 64 && c3 < 64
            && c0 * 4 + c1 / 16 == b0
            && c1 % 16 * 16 + c2 / 4 == b1
            && c2 % 4 * 64 + c3 == b2
  {
    var c1, c2 := b0 % 4 * 16 + b1 / 16, b1 % 16 * 4 + b2 / 64;
    assert c1 / 16 == b0 % 4 && c1 % 16 == b1 / 16;
    assert c2 / 4 == b1 % 16 && c2 % 4 == b2 / 64;
  }

  /** Decoding the unpadded encoding gives back the bytes. */
  lemma {:induction false} DecodeEncodeUnpadded(b: seq<byte>)
    ensures |EncodeUnpadded(b)| % 4 != 1
    ensures DecodeUnpadded(EncodeUnpadded(b)) == b
    decreases |b|
  {
    if |b| == 1 {
      FinalSingle(b);
    } else if |b| == 2 {
      FinalPair(b);
    } else if |b| >= 3 {
      DecodeEncodeUnpadded(b[3..]);
      FullGroup(b);
    }
  }

  /** A single final byte: two characters, and back. */
  lemma FinalSingle(b: seq<byte>)
    requires |b| == 1
    ensures DecodeUnpadded(EncodeUnpadded(b)) == b
  {
    var e := EncodeFinalSingle(b[0]);
    assert EncodeUnpadded(b) == e;
    SingleDecodes(b[0]);
    assert DecodeUnpadded(e) == DecodeFinalPair(e[0], e[1]);
  }

  /** Two final bytes: three characters, and back. */
  lemma FinalPair(b: seq<byte>)
    requires |b| == 2
    ensures DecodeUnpadded(EncodeUnpadded(b)) == b
  {
    var e := EncodeFinalPair(b[0], b[1]);
    assert EncodeUnpadded(b) == e;
    PairDecodes(b[0], b[1]);
    assert DecodeUnpadded(e) == DecodeFinalTriple(e[0], e[1], e[2]);
  }

  /** Decoding the two characters of a final byte gives it back. */
  lemma SingleDecodes(b0: byte)
    ensures var e := EncodeFinalSingle(b0); DecodeFinalPair(e[0], e[1]) == [b0]
  {
    var x0, x1 := b0 / 4, b0 % 4 * 16;
    ValueOfCharOf(x0);
    ValueOfCharOf(x1);
    GroupRoundTrip(b0, 0, 0);
  }

  /** Decoding the three characters of a final pair gives it back. */
  lemma PairDecodes(b0: byte, b1: byte)
    ensures var e := EncodeFinalPair(b0, b1); DecodeFinalTriple(e[0], e[1], e[2]) == [b0, b1]
  {
    var x0, x1, x2 := b0 / 4, b0 % 4 * 16 + b1 / 16, b1 % 16 * 4;
    ValueOfCharOf(x0);
    ValueOfCharOf(x1);
    ValueOfCharOf(x2);
    GroupRoundTrip(b0, b1, 0);
  }

  /** Decoding a group's four characters gives back its three bytes. */
  lemma GroupDecodes(b0: byte, b1: byte, b2: byte)
    ensures var e := EncodeGroup(b0, b1, b2); DecodeGroup(e[0], e[1], e[2], e[3]) == [b0, b1, b2]
  {
    var x0, x1, x2, x3 := b0 / 4, b0 % 4 * 16 + b1 / 16, b1 % 16 * 4 + b2 / 64, b2 % 64;
    ValueOfCharOf(x0);
    ValueOfCharOf(x1);
    ValueOfCharOf(x2);
    ValueOfCharOf(x3);
    GroupRoundTrip(b0, b1, b2);
  }

  /** A full leading group decodes to its three bytes, whatever the rest decodes to. */
  lemma FullGroup(b: seq<byte>)
    requires |b| >= 3
    requires DecodeUnpadded(EncodeUnpadded(b[3..])) == b[3..]
    ensures DecodeUnpadded(EncodeUnpadded(b)) == b
  {
    var g, rest := EncodeGroup(b[0], b[1], b[2]), EncodeUnpadded(b[3..]);
    var s := g + rest;
    assert EncodeUnpadded(b) == s;
    assert s[..4] == g && s[4..] == rest;
    assert s[0] == g[0] && s[1] == g[1] && s[2] == g[2] && s[3] == g[3];
    GroupDecodes(b[0], b[1], b[2]);
    assert DecodeUnpadded(s) == [b[0], b[1], b[2]] + b[3..];
    SplitGroup(b);
  }

  /** A sequence of three or more is its first three elements followed by the rest. */
  lemma SplitGroup<T>(b: seq<T>)
    requires |b| >= 3
    ensures b == [b[0], b[1], b[2]] + b[3..]
  {
    assert b[..3] == [b[0], b[1], b[2]];
    assert b == b[..3] + b[3..];
  }

  /** Forgiving decode removes exactly the padding that encoding added. */
  lemma PaddingRemoved(b: seq<byte>)
    ensures RemovePadding(Encode(b)) == EncodeUnpadded(b)
  {
    var u := EncodeUnpadded(b);
    EncodeUnpaddedFinal(b);
    if |b| % 3 == 1 {
      StripTwoPads(u);
    } else if |b| % 3 == 2 {
      StripOnePad(u);
    } else {
      StripNoPad(u);
      assert u + [] == u;
    }
  }

  /** Two pad characters after a final single byte are removed. */
  lemma StripTwoPads(u: string)
    requires AllBase64(u) && |u| % 4 == 2
    ensures RemovePadding(u + [Pad, Pad]) == u
  {
    var e := u + [Pad, Pad];
    assert e[|e| - 1] == Pad && e[|e| - 2] == Pad;
    assert e[..|e| - 2] == u;
  }

  /** One pad character after a final pair of bytes is removed, and nothing more. */
  lemma StripOnePad(u: string)
    requires AllBase64(u) && |u| % 4 == 3
    ensures RemovePadding(u + [Pad]) == u
  {
    var e := u + [Pad];
    assert e[|e| - 1] == Pad;
    assert e[|e| - 2] == u[|u| - 1];
    assert e[..|e| - 1] == u;
  }

  /** Without padding nothing is removed. */
  lemma StripNoPad(u: string)
    requires AllBase64(u) && |u| % 4 == 0
    ensures RemovePadding(u) == u
  {
    if u != [] {
      assert IsBase64Char(u[|u| - 1]);
    }
  }

  /** Forgiving decode inverts base64 encoding. */
  lemma DecodeEncode(b: seq<byte>)
    ensures ForgivingDecode(Encode(b)) == Some(b)
  {
    var e := Encode(b);
    assert forall i :: 0 <= i < |e| ==> !IsAsciiWhitespace(e[i]);
    assert RemoveAsciiWhitespace(e) == e;
    PaddingRemoved(b);
    DecodeEncodeUnpadded(b);
  }

  /** `atob` undoes `btoa` on every string that `btoa` accepts. */
  lemma AtobBtoa(s: string)
    requires IsByteString(s)
    ensures Btoa(s).Some? && Atob(Btoa(s).value) == Some(s)
  {
    DecodeEncode(ToBytes(s));
    var t := FromBytes(ToBytes(s));
    assert forall i :: 0 <= i < |s| ==> t[i] == s[i];
    assert t == s;
  }
}
