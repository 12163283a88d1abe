/** Base64 as the browser's `btoa` and `atob` implement it.

    `btoa` encodes a string of Latin-1 characters (one byte each) with the
    alphabet and padding of section 4 of RFC 4648, and throws on any
    character above U+00FF.  `atob` decodes with the forgiving algorithm of
    the WHATWG Infra standard: ASCII whitespace is dropped, one or two
    trailing `=` are removed when the length is a multiple of four, a length
    of 1 modulo 4 or a character outside the alphabet is an error, and
    leftover bits of a final partial group are discarded. */
module Base64 {
  import opened Wrappers

  type byte = b: int | 0 <= b < 256
  type sextet = v: int | 0 <= v < 64

  /** The 64 characters of the base64 alphabet (RFC 4648, table 1). */
  predicate IsAlphabetChar(c: char) {
    ('A' <= c <= 'Z') || ('a' <= c <= 'z') || ('0' <= c <= '9') || c == '+' || c == '/'
  }

  function EncodeSextet(v: sextet): (c: char)
    ensures IsAlphabetChar(c)
  {
    if v < 26 then ('A' as int + v) as char
    else if v < 52 then ('a' as int + (v - 26)) as char
    else if v < 62 then ('0' as int + (v - 52)) as char
    else if v == 62 then '+'
    else '/'
  }

  function DecodeSextet(c: char): (v: sextet)
    requires IsAlphabetChar(c)
    ensures EncodeSextet(v) == c
  {
    if 'A' <= c <= 'Z' then c as int - 'A' as int
    else if 'a' <= c <= 'z' then c as int - 'a' as int + 26
    else if '0' <= c <= '9' then c as int - '0' as int + 52
    else if c == '+' then 62
    else 63
  }

  lemma DecodeEncodeSextet(v: sextet)
    ensures DecodeSextet(EncodeSextet(v)) == v
  {
  }

  /** The four characters of a full group of three bytes. */
  function EncodeTriple(x: byte, y: byte, z: byte): (s: string)
    ensures |s| == 4 && AllAlphabet(s)
  {
    [EncodeSextet(x / 4), EncodeSextet(x % 4 * 16 + y / 16),
     EncodeSextet(y % 16 * 4 + z / 64), EncodeSextet(z % 64)]
  }

  /** The characters of a final group of one or two bytes, unpadded. */
  function EncodeTail(b: seq<byte>): (s: string)
    requires 1 <= |b| <= 2
    ensures |s| == |b| + 1 && AllAlphabet(s)
  {
    if |b| == 1 then [EncodeSextet(b[0] / 4), EncodeSextet(b[0] % 4 * 16)]
    else [EncodeSextet(b[0] / 4), EncodeSextet(b[0] % 4 * 16 + b[1] / 16), EncodeSextet(b[1] % 16 * 4)]
  }

  /** The base64 characters of `b` without padding: four characters per
      full group of three bytes, then two characters for one leftover byte
      or three for two. */
  function EncodeUnpadded(b: seq<byte>): (s: string)
    ensures AllAlphabet(s) && |s| >= |b|
  {
    if |b| == 0 then ""
    else if |b| <= 2 then EncodeTail(b)
    else EncodeTriple(b[0], b[1], b[2]) + EncodeUnpadded(b[3..])
  }

  /** The `=` characters that complete the last 24-bit group. */
  function Padding(n: nat): string {
    if n % 3 == 1 then "==" else if n % 3 == 2 then "=" else ""
  }

  /** Base64 encoding of section 4 of RFC 4648. */
  function Encode(b: seq<byte>): (s: string)
    ensures forall i | 0 <= i < |s| :: IsAlphabetChar(s[i]) || s[i] == '='
  {
    EncodeUnpadded(b) + Padding(|b|)
  }

  predicate IsAsciiWhitespace(c: char) {
    c == '\t' || c == '\n' || c == '\U{000C}' || c == '\r' || c == ' '
  }

  function StripWhitespace(s: string): (r: string)
    ensures forall i | 0 <= i < |r| :: !IsAsciiWhitespace(r[i])
    ensures forall c :: c in r <==> c in s && !IsAsciiWhitespace(c)
  {
    if s == [] then []
    else if IsAsciiWhitespace(s[0]) then StripWhitespace(s[1..])
    else [s[0]] + StripWhitespace(s[1..])
  }

  /** Step 2 of forgiving-base64 decode: when the length is a multiple of
      four, one or two trailing `=` are removed. */
  function RemovePadding(s: string): (r: string)
    ensures r <= s
  {
    if |s| % 4 != 0 then s
    else if |s| >= 2 && s[|s| - 2] == '=' && s[|s| - 1] == '=' then s[..|s| - 2]
    else if |s| >= 1 && s[|s| - 1] == '=' then s[..|s| - 1]
    else s
  }

  predicate AllAlphabet(s: string) {
    forall i | 0 <= i < |s| :: IsAlphabetChar(s[i])
  }

  /** The three bytes of a full group of four characters. */
  function DecodeQuad(s: string): (b: seq<byte>)
    requires |s| == 4 && AllAlphabet(s)
    ensures |b| == 3
  {
    [DecodeSextet(s[0]) * 4 + DecodeSextet(s[1]) / 16,
     DecodeSextet(s[1]) % 16 * 16 + DecodeSextet(s[2]) / 4,
     DecodeSextet(s[2]) % 4 * 64 + DecodeSextet(s[3])]
  }

  /** The bytes of a final group of two or three characters; the spare
      bits are dropped. */
  function DecodeTail(s: string): (b: seq<byte>)
    requires 2 <= |s| <= 3 && AllAlphabet(s)
    ensures |b| == |s| - 1
  {
    if |s| == 2 then [DecodeSextet(s[0]) * 4 + DecodeSextet(s[1]) / 16]
    else [DecodeSextet(s[0]) * 4 + DecodeSextet(s[1]) / 16,
          DecodeSextet(s[1]) % 16 * 16 + DecodeSextet(s[2]) / 4]
  }

  /** The bytes of unpadded base64 text. */
  function DecodeUnpadded(s: string): (b: seq<byte>)
    requires AllAlphabet(s) && |s| % 4 != 1
  {
    if |s| == 0 then []
    else if |s| <= 3 then DecodeTail(s)
    else DecodeQuad(s[..4]) + DecodeUnpadded(s[4..])
  }

  /** The forgiving-base64 decode of the WHATWG Infra standard. */
  function Decode(s: string): (r: Option<seq<byte>>)
    ensures r.Some? <==>
              var d := RemovePadding(StripWhitespace(s)); |d| % 4 != 1 && AllAlphabet(d)
  {
    var d := RemovePadding(StripWhitespace(s));
    if |d| % 4 == 1 || !AllAlphabet(d) then None
    else Some(DecodeUnpadded(d))
  }

  // ---------------------------------------------------------------------
  // Round trip

  /** The bit arithmetic of one group: the three bytes are spread over four
      sextets and gathered back. */
  lemma TripleArithmetic(x: byte, y: byte, z: byte)
    ensures (x / 4) * 4 + (x % 4 * 16 + y / 16) / 16 == x
    ensures (x % 4 * 16 + y / 16) % 16 * 16 + (y % 16 * 4 + z / 64) / 4 == y
    ensures (y % 16 * 4 + z / 64) % 4 * 64 + z % 64 == z
  {
  }

  lemma DecodeEncodeTriple(x: byte, y: byte, z: byte)
    ensures DecodeQuad(EncodeTriple(x, y, z)) == [x, y, z]
  {
    var s := EncodeTriple(x, y, z);
    DecodeEncodeSextet(x / 4);
    DecodeEncodeSextet(x % 4 * 16 + y / 16);
    DecodeEncodeSextet(y % 16 * 4 + z / 64);
    DecodeEncodeSextet(z % 64);
    assert DecodeSextet(s[0]) == x / 4;
    assert DecodeSextet(s[1]) == x % 4 * 16 + y / 16;
    assert DecodeSextet(s[2]) == y % 16 * 4 + z / 64;
    assert DecodeSextet(s[3]) == z % 64;
    TripleArithmetic(x, y, z);
  }

  lemma DecodeEncodeTail(b: seq<byte>)
    requires 1 <= |b| <= 2
    ensures DecodeTail(EncodeTail(b)) == b
  {
    DecodeEncodeSextet(b[0] / 4);
    if |b| == 1 {
      DecodeEncodeSextet(b[0] % 4 * 16);
    } else {
      DecodeEncodeSextet(b[0] % 4 * 16 + b[1] / 16);
      DecodeEncodeSextet(b[1] % 16 * 4);
    }
  }

  lemma ModFourShift(n: nat)
    ensures (n + 4) % 4 == n % 4
  {
  }

  /** Decoding unpadded text that starts with a full group. */
  lemma DecodeUnpaddedCons(q: string, rest: string)
    requires |q| == 4 && AllAlphabet(q) && AllAlphabet(rest) && |rest| % 4 != 1
    ensures AllAlphabet(q + rest) && |q + rest| % 4 != 1
    ensures DecodeUnpadded(q + rest) == DecodeQuad(q) + DecodeUnpadded(rest)
  {
    var s := q + rest;
    ModFourShift(|rest|);
    assert s[..4] == q;
    assert s[4..] == rest;
  }

  /** The unpadded text has two or three characters in its last group
      when one or two bytes are left over, and none otherwise. */
  lemma {:induction false} UnpaddedLengthMod(b: seq<byte>)
    ensures |EncodeUnpadded(b)| % 4 == (if |b| % 3 == 0 then 0 else |b| % 3 + 1)
  {
    if |b| > 2 {
      UnpaddedLengthMod(b[3..]);
      ModThreeShift(|b| - 3);
      ModFourShift(|EncodeUnpadded(b[3..])|);
    }
  }

  /** One full group in front of text that already decodes back. */
  lemma DecodeEncodeGroup(b: seq<byte>)
    requires |b| > 2
    requires |EncodeUnpadded(b[3..])| % 4 != 1 && DecodeUnpadded(EncodeUnpadded(b[3..])) == b[3..]
    ensures |EncodeUnpadded(b)| % 4 != 1 && DecodeUnpadded(EncodeUnpadded(b)) == b
  {
    var q := EncodeTriple(b[0], b[1], b[2]);
    var rest := EncodeUnpadded(b[3..]);
    assert EncodeUnpadded(b) == q + rest;
    DecodeUnpaddedCons(q, rest);
    DecodeEncodeTriple(b[0], b[1], b[2]);
    SplitGroup(b);
  }

  lemma SplitGroup(b: seq<byte>)
    requires |b| > 2
    ensures [b[0], b[1], b[2]] + b[3..] == b
  {
  }

  lemma {:induction false} DecodeEncodeUnpadded(b: seq<byte>)
    ensures |EncodeUnpadded(b)| % 4 != 1
    ensures DecodeUnpadded(EncodeUnpadded(b)) == b
  {
    if |b| == 0 {
    } else if |b| <= 2 {
      UnpaddedLengthMod(b);
      DecodeEncodeTail(b);
    } else {
      DecodeEncodeUnpadded(b[3..]);
      DecodeEncodeGroup(b);
    }
  }

  lemma StripWhitespaceNoop(s: string)
    requires forall i | 0 <= i < |s| :: !IsAsciiWhitespace(s[i])
    ensures StripWhitespace(s) == s
  {
    if s != [] {
      StripWhitespaceNoop(s[1..]);
    }
  }

  lemma ModThreeShift(n: nat)
    ensures (n + 3) / 3 == n / 3 + 1 && (n + 3) % 3 == n % 3
  {
  }

  lemma {:induction false} UnpaddedLength(b: seq<byte>)
    ensures |EncodeUnpadded(b)| == |b| / 3 * 4 + (if |b| % 3 == 0 then 0 else |b| % 3 + 1)
  {
    if |b| > 2 {
      UnpaddedLength(b[3..]);
      ModThreeShift(|b| - 3);
    }
  }

  /** Every 24-bit group, the last one padded, becomes four characters. */
  lemma EncodedLength(b: seq<byte>)
    ensures |Encode(b)| == (|b| + 2) / 3 * 4
  {
    UnpaddedLength(b);
    GroupCount(|b|);
  }

  lemma GroupCount(n: nat)
    ensures (n + 2) / 3 == n / 3 + (if n % 3 == 0 then 0 else 1)
  {
    var q, r := n / 3, n % 3;
    assert n + 2 == 3 * q + (r + 2);
  }

  lemma RemovePaddingOf(u: string, p: string)
    requires AllAlphabet(u) && (p == "" || p == "=" || p == "==")
    requires |u + p| % 4 == 0 && (p != "" ==> |u| > 0)
    ensures RemovePadding(u + p) == u
  {
    var s := u + p;
    if p == "==" {
      assert s[|s| - 2] == '=' && s[|s| - 1] == '=' && s[..|s| - 2] == u;
    } else if p == "=" {
      assert s[|s| - 2] == u[|u| - 1] && s[|s| - 1] == '=' && s[..|s| - 1] == u;
    } else {
      assert s == u;
      assert |s| > 0 ==> s[|s| - 1] == u[|u| - 1];
    }
  }

  lemma CompleteGroup(n: nat, k: nat)
    requires n % 4 + k == 4
    ensures (n + k) % 4 == 0
  {
  }

  /** Removing the padding of an encoding leaves the unpadded text. */
  lemma RemovePaddingOfEncode(b: seq<byte>)
    ensures RemovePadding(Encode(b)) == EncodeUnpadded(b)
  {
    PaddingCompletes(b);
    RemovePaddingOf(EncodeUnpadded(b), Padding(|b|));
  }

  /** The padding fills the last group of four. */
  lemma PaddingCompletes(b: seq<byte>)
    ensures (|EncodeUnpadded(b)| + |Padding(|b|)|) % 4 == 0
    ensures Padding(|b|) != "" ==> |EncodeUnpadded(b)| > 0
  {
    UnpaddedLengthMod(b);
    PaddingFills(|b|, |EncodeUnpadded(b)|);
  }

  lemma PaddingFills(n: nat, u: nat)
    requires u % 4 == (if n % 3 == 0 then 0 else n % 3 + 1)
    ensures (u + |Padding(n)|) % 4 == 0
    ensures Padding(n) != "" ==> u > 0
  {
    if n % 3 == 1 {
      CompleteGroup(u, 2);
    } else if n % 3 == 2 {
      CompleteGroup(u, 1);
    }
  }

  /** atob(btoa(bytes)) gives the bytes back. */
  lemma DecodeEncode(b: seq<byte>)
    ensures Decode(Encode(b)) == Some(b)
  {
    StripWhitespaceNoop(Encode(b));
    RemovePaddingOfEncode(b);
    DecodeEncodeUnpadded(b);
  }

  // ---------------------------------------------------------------------
  // Strings of Latin-1 characters

  predicate IsLatin1(s: string) {
    forall i | 0 <= i < |s| :: s[i] as int < 256
  }

  function BytesOf(s: string): (b: seq<byte>)
    requires IsLatin1(s)
    ensures |b| == |s| && forall i | 0 <= i < |s| :: b[i] == s[i] as int
  {
    if s == [] then [] else [s[0] as int] + BytesOf(s[1..])
  }

  function CharsOf(b: seq<byte>): (s: string)
    ensures IsLatin1(s)
    ensures |s| == |b| && forall i | 0 <= i < |b| :: s[i] as int == b[i]
  {
    if b == [] then [] else [b[0] as char] + CharsOf(b[1..])
  }

  lemma CharsOfBytesOf(s: string)
    requires IsLatin1(s)
    ensures CharsOf(BytesOf(s)) == s
  {
    var t := CharsOf(BytesOf(s));
    assert forall i | 0 <= i < |s| :: t[i] as int == s[i] as int;
  }

  /** `window.btoa`: fails (InvalidCharacterError) on a character above U+00FF. */
  function Btoa(s: string): (r: Option<string>)
    ensures r.Some? <==> IsLatin1(s)
    ensures r.Some? ==> forall i | 0 <= i < |r.value| :: IsAlphabetChar(r.value[i]) || r.value[i] == '='
  {
    if IsLatin1(s) then Some(Encode(BytesOf(s))) else None
  }

  /** `window.atob`: the decoded bytes as Latin-1 characters. */
  function Atob(s: string): (r: Option<string>)
    ensures r.Some? ==> IsLatin1(r.value)
    ensures r.Some? <==> Decode(s).Some?
  {
    match Decode(s)
    case None => None
    case Some(b) => Some(CharsOf(b))
  }

  /** The round trip the embedded-source codec relies on. */
  lemma AtobBtoa(s: string)
    requires IsLatin1(s)
    ensures Btoa(s).Some? && Atob(Btoa(s).value) == Some(s)
  {
    DecodeEncode(BytesOf(s));
    CharsOfBytesOf(s);
  }
}
