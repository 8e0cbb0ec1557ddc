/**
  The SMS-DELIVER PDU decoder of the UART service (uart_service/src/sms.cpp).

  A PDU arrives as a string of hexadecimal characters. The decoder walks it with
  a cursor and fills four text fields: the service-centre number, the sender
  number, the service-centre timestamp and the message content. Every helper of
  the source builds its result in a loop; each is modelled here as a method with
  that loop, proved against a specification function, and the specification
  functions carry the lemmas (round trips against an encoder, bounds, shapes).
 */
module SmsPdu {
  import opened Wrappers
  import opened Sequences

  /** One octet of user data (an element of std::vector<unsigned char>, or a char of std::string). */
  type Byte = bv8

  // ---------------------------------------------------------------------------
  // Hexadecimal digits, as std::stoi(..., nullptr, 16) reads them
  // ---------------------------------------------------------------------------

  predicate IsHexDigit(c: char) {
    ('0' <= c <= '9') || ('A' <= c <= 'F') || ('a' <= c <= 'f')
  }

  predicate IsHex(s: string) {
    forall i :: 0 <= i < |s| ==> IsHexDigit(s[i])
  }

  function HexDigitValue(c: char): (v: nat)
    requires IsHexDigit(c)
    ensures v < 16
  {
    if '0' <= c <= '9' then c as nat - '0' as nat
    else if 'A' <= c <= 'F' then c as nat - 'A' as nat + 10
    else c as nat - 'a' as nat + 10
  }

  /** The upper-case hexadecimal digit of a value below 16. */
  function HexDigit(v: nat): (c: char)
    requires v < 16
    ensures IsHexDigit(c) && HexDigitValue(c) == v
  {
    if v < 10 then ('0' as nat + v) as char else ('A' as nat + v - 10) as char
  }

  /** std::stoi of a chunk of one or two hexadecimal digits. */
  function ChunkValue(chunk: string): (v: nat)
    requires 1 <= |chunk| <= 2 && IsHex(chunk)
    ensures v < 256
  {
    if |chunk| == 1 then HexDigitValue(chunk[0])
    else HexDigitValue(chunk[0]) * 16 + HexDigitValue(chunk[1])
  }

  /** Two hexadecimal digits start at position i. */
  predicate HexPairAt(s: string, i: nat) {
    i + 2 <= |s| && IsHexDigit(s[i]) && IsHexDigit(s[i + 1])
  }

  /** std::stoi(pdu.substr(i, 2), nullptr, 16) when both characters are hexadecimal digits. */
  function HexByteAt(pdu: string, i: nat): (v: nat)
    requires HexPairAt(pdu, i)
    ensures v < 256
  {
    HexDigitValue(pdu[i]) * 16 + HexDigitValue(pdu[i + 1])
  }

  /** The pair at position i is the two-digit chunk substr(i, 2) that std::stoi reads. */
  lemma HexByteChunk(pdu: string, i: nat)
    requires HexPairAt(pdu, i)
    ensures HexByteAt(pdu, i) == ChunkValue(pdu[i .. i + 2])
  {
    assert pdu[i .. i + 2][0] == pdu[i] && pdu[i .. i + 2][1] == pdu[i + 1];
  }

  // ---------------------------------------------------------------------------
  // hexToBytes (sms.cpp:7-15)
  // ---------------------------------------------------------------------------

  /**
    The bytes that hexToBytes produces: byte k is the value of characters 2k and
    2k+1; an odd-length input ends in a byte read from its last digit alone,
    because substr(i, 2) then yields a single character.
   */
  function HexBytes(hex: string): (bytes: seq<Byte>)
    requires IsHex(hex)
    ensures |bytes| == (|hex| + 1) / 2
  {
    seq((|hex| + 1) / 2, k requires 0 <= k < (|hex| + 1) / 2 =>
      ChunkValue(hex[2 * k .. if 2 * k + 2 <= |hex| then 2 * k + 2 else |hex|]) as Byte)
  }

  method HexToBytes(hex: string) returns (bytes: seq<Byte>)
    requires IsHex(hex)
    ensures bytes == HexBytes(hex)
  {
    bytes := [];
    var i := 0;
    while i < |hex|
      invariant i % 2 == 0 && i <= |hex| + 1
      invariant |bytes| == i / 2
      invariant forall k :: 0 <= k < i / 2 ==> bytes[k] == HexBytes(hex)[k]
    {
      var chunk := hex[i .. if i + 2 <= |hex| then i + 2 else |hex|];
      bytes := bytes + [ChunkValue(chunk) as Byte];
      i := i + 2;
    }
  }

  /** The two upper-case hexadecimal digits of one byte, high digit first. */
  function ByteHex(b: Byte): (pair: string)
    ensures |pair| == 2 && IsHex(pair) && ChunkValue(pair) == b as nat
  {
    var v := b as nat;
    PairValue(v / 16, v % 16);
    [HexDigit(v / 16), HexDigit(v % 16)]
  }

  /** Two upper-case digits read back as the value they spell. */
  lemma PairValue(hi: nat, lo: nat)
    requires hi < 16 && lo < 16
    ensures ChunkValue([HexDigit(hi), HexDigit(lo)]) == hi * 16 + lo
  {
    var pair := [HexDigit(hi), HexDigit(lo)];
    assert pair[0] == HexDigit(hi) && pair[1] == HexDigit(lo);
  }

  /** The upper-case hexadecimal text of a byte sequence: the inverse of hexToBytes. */
  function ToHex(bytes: seq<Byte>): (hex: string)
    ensures |hex| == 2 * |bytes| && IsHex(hex)
  {
    if bytes == [] then [] else ByteHex(bytes[0]) + ToHex(bytes[1..])
  }

  lemma {:induction false} ToHexAt(bytes: seq<Byte>, k: nat)
    requires k < |bytes|
    ensures ToHex(bytes)[2 * k .. 2 * k + 2] == ByteHex(bytes[k])
  {
    if k > 0 {
      var tail := bytes[1..];
      ToHexAt(tail, k - 1);
      assert tail[k - 1] == bytes[k];
      assert ToHex(bytes) == ByteHex(bytes[0]) + ToHex(tail);
      SliceAfter(ByteHex(bytes[0]), ToHex(tail), 2 * k, 2 * k + 2);
    }
  }

  /** Byte k of the decoded text is read from two digits of a full chunk. */
  lemma HexBytesAt(hex: string, k: nat)
    requires IsHex(hex) && 2 * k + 2 <= |hex|
    ensures HexBytes(hex)[k] == ChunkValue(hex[2 * k .. 2 * k + 2]) as Byte
  {
  }

  lemma HexRoundTripAt(bytes: seq<Byte>, k: nat)
    requires k < |bytes|
    ensures HexBytes(ToHex(bytes))[k] == bytes[k]
  {
    ToHexAt(bytes, k);
    HexBytesAt(ToHex(bytes), k);
    assert (bytes[k] as nat) as Byte == bytes[k];
  }

  /** Decoding the hexadecimal text of any byte sequence gives the bytes back. */
  lemma HexRoundTrip(bytes: seq<Byte>)
    ensures HexBytes(ToHex(bytes)) == bytes
  {
    forall k | 0 <= k < |bytes|
      ensures HexBytes(ToHex(bytes))[k] == bytes[k]
    {
      HexRoundTripAt(bytes, k);
    }
  }

  // ---------------------------------------------------------------------------
  // decodeSemiOctet (sms.cpp:17-29)
  // ---------------------------------------------------------------------------

  /**
    std::string::operator[] on a const string yields '\0' at index size(), the
    only out-of-range position the semi-octet and timestamp loops can reach.
   */
  function CharAt(s: string, i: nat): char
    requires i <= |s|
  {
    if i < |s| then s[i] else '\0'
  }

  /** The digits one nibble-swapped pair contributes: second first, then first unless it is the pad 'F'. */
  function PairDigits(first: char, second: char): string {
    [second] + (if first != 'F' then [first] else [])
  }

  /** The digits the loop of decodeSemiOctet has emitted once its index reaches i. */
  function DigitsBefore(hex: string, i: nat): string
    requires i <= |hex| + 1
  {
    if i < 2 then [] else DigitsBefore(hex, i - 2) + PairDigits(hex[i - 2], CharAt(hex, i - 1))
  }

  /** Every digit the loop of decodeSemiOctet emits, before truncation: one pair per two characters. */
  function SemiOctetDigits(hex: string): string {
    DigitsBefore(hex, |hex| + |hex| % 2)
  }

  /** decodeSemiOctet(hex, digits): the emitted digits, cut to at most `digits` characters. */
  function SemiOctet(hex: string, digits: nat): (r: string)
    ensures |r| <= digits && |r| <= |SemiOctetDigits(hex)|
    ensures r == SemiOctetDigits(hex)[..|r|]
  {
    var all := SemiOctetDigits(hex);
    if |all| > digits then all[..digits] else all
  }

  method DecodeSemiOctet(hex: string, digits: nat) returns (result: string)
    ensures result == SemiOctet(hex, digits)
  {
    result := [];
    var i := 0;
    ghost var n := 0;
    while i < |hex|
      invariant i == 2 * n && i <= |hex| + 1
      invariant result == DigitsBefore(hex, i)
    {
      result := result + [CharAt(hex, i + 1)];
      if hex[i] != 'F' {
        result := result + [hex[i]];
      }
      i := i + 2;
      n := n + 1;
    }
    assert i == |hex| + |hex| % 2;
    if |result| > digits {
      result := result[..digits];
    }
  }

  /** Digits emitted before position i only look at the characters before i. */
  lemma {:induction false} DigitsBeforePrefix(p: string, q: string, i: nat)
    requires i <= |p|
    ensures DigitsBefore(p + q, i) == DigitsBefore(p, i)
    decreases i
  {
    if i >= 2 {
      DigitsBeforePrefix(p, q, i - 2);
      assert (p + q)[i - 2] == p[i - 2] && CharAt(p + q, i - 1) == CharAt(p, i - 1);
    }
  }

  /** After a prefix, the loop reads the next m pairs as if it started there. */
  lemma {:induction false} DigitsBeforeConcat(p: string, q: string, m: nat)
    requires 2 * m <= |q| + 1
    ensures DigitsBefore(p + q, |p| + 2 * m) == DigitsBefore(p, |p|) + DigitsBefore(q, 2 * m)
    decreases m
  {
    if m == 0 {
      DigitsBeforePrefix(p, q, |p|);
    } else {
      var j := 2 * m;
      DigitsBeforeConcat(p, q, m - 1);
      assert (p + q)[|p| + j - 2] == q[j - 2] && CharAt(p + q, |p| + j - 1) == CharAt(q, j - 1);
      assert DigitsBefore(p + q, |p| + j)
          == DigitsBefore(p + q, |p| + j - 2) + PairDigits(q[j - 2], CharAt(q, j - 1));
    }
  }

  /** Each pair yields at most two digits, and exactly two unless its first character is the pad 'F'. */
  lemma {:induction false} DigitsBeforeLength(hex: string, m: nat)
    requires 2 * m <= |hex|
    ensures |DigitsBefore(hex, 2 * m)| <= 2 * m
    ensures (forall k :: 0 <= k < m ==> hex[2 * k] != 'F') ==> |DigitsBefore(hex, 2 * m)| == 2 * m
    decreases m
  {
    if m > 0 {
      DigitsBeforeLength(hex, m - 1);
    }
  }

  /** Output length is bounded by the digit budget and by the input length (even inputs). */
  lemma SemiOctetLength(hex: string, digits: nat)
    requires |hex| % 2 == 0
    ensures |SemiOctet(hex, digits)| <= digits && |SemiOctet(hex, digits)| <= |hex|
  {
    DigitsBeforeLength(hex, |hex| / 2);
  }

  /** The semi-octet form of a digit string: digits swapped in pairs, an odd tail padded with 'F'. */
  function EncodeSemiOctet(d: string): (hex: string)
    ensures |hex| == 2 * ((|d| + 1) / 2)
  {
    if |d| == 0 then []
    else if |d| == 1 then ['F', d[0]]
    else [d[1], d[0]] + EncodeSemiOctet(d[2..])
  }

  lemma {:induction false} EncodedDigits(d: string)
    requires forall i :: 0 <= i < |d| ==> d[i] != 'F'
    ensures DigitsBefore(EncodeSemiOctet(d), 2 * ((|d| + 1) / 2)) == d
  {
    var hex := EncodeSemiOctet(d);
    if |d| == 1 {
      assert DigitsBefore(hex, 2) == DigitsBefore(hex, 0) + PairDigits(hex[0], CharAt(hex, 1));
    } else if |d| >= 2 {
      var rest := d[2..];
      var tail := EncodeSemiOctet(rest);
      var m := (|rest| + 1) / 2;
      EncodedDigits(rest);
      assert hex == [d[1], d[0]] + tail;
      DigitsBeforeConcat([d[1], d[0]], tail, m);
      assert (|d| + 1) / 2 == m + 1;
      assert DigitsBefore([d[1], d[0]], 2) == [d[0], d[1]];
      assert d == [d[0], d[1]] + rest;
    }
  }

  /** Any digit string without 'F' survives encoding and decoding to its own length. */
  lemma SemiOctetRoundTrip(d: string)
    requires forall i :: 0 <= i < |d| ==> d[i] != 'F'
    ensures SemiOctetDigits(EncodeSemiOctet(d)) == d
    ensures SemiOctet(EncodeSemiOctet(d), |d|) == d
  {
    var hex := EncodeSemiOctet(d);
    var m := (|d| + 1) / 2;
    EncodedDigits(d);
    EvenDigits(hex, m);
  }

  /** An even-length input of m pairs emits exactly the digits of its m pairs. */
  lemma EvenDigits(hex: string, m: nat)
    requires |hex| == 2 * m
    ensures SemiOctetDigits(hex) == DigitsBefore(hex, 2 * m)
  {
  }

  lemma SemiOctetExamples()
    ensures SemiOctet("21436587", 8) == "12345678"
    ensures SemiOctet("21F3", 3) == "123"
  {
    assert DigitsBefore("21436587", 2) == "12";
    assert DigitsBefore("21436587", 4) == "1234";
    assert DigitsBefore("21436587", 6) == "123456";
    assert DigitsBefore("21F3", 2) == "12";
  }

  // ---------------------------------------------------------------------------
  // decodeGSM7 (sms.cpp:31-48): 3GPP TS 23.038 section 6.1.2.1.1 packing
  // ---------------------------------------------------------------------------

  /** x >> n for a shift amount below 8, by cases so that every shift has a constant amount. */
  function ShiftRight8(x: Byte, n: nat): Byte
    requires n < 8
  {
    if n == 0 then x else if n == 1 then x >> 1 else if n == 2 then x >> 2
    else if n == 3 then x >> 3 else if n == 4 then x >> 4 else if n == 5 then x >> 5
    else if n == 6 then x >> 6 else x >> 7
  }

  /** x << n, kept to 8 bits, for a shift amount below 8. */
  function ShiftLeft8(x: Byte, n: nat): Byte
    requires n < 8
  {
    if n == 0 then x else if n == 1 then x << 1 else if n == 2 then x << 2
    else if n == 3 then x << 3 else if n == 4 then x << 4 else if n == 5 then x << 5
    else if n == 6 then x << 6 else x << 7
  }

  /** x >> n on the int that C++ promotes a byte to (16 bits are enough here). */
  function ShiftRight16(x: bv16, n: nat): bv16
    requires n < 8
  {
    if n == 0 then x else if n == 1 then x >> 1 else if n == 2 then x >> 2
    else if n == 3 then x >> 3 else if n == 4 then x >> 4 else if n == 5 then x >> 5
    else if n == 6 then x >> 6 else x >> 7
  }

  /** x << n on the promoted int, for 1 <= n <= 8 - 2 as decodeGSM7 uses it. */
  function ShiftLeft16(x: bv16, n: nat): bv16
    requires n < 8
  {
    if n == 0 then x else if n == 1 then x << 1 else if n == 2 then x << 2
    else if n == 3 then x << 3 else if n == 4 then x << 4 else if n == 5 then x << 5
    else if n == 6 then x << 6 else x << 7
  }

  /**
    One septet from the byte it starts in (`cur`) at bit `offset`: the low bits
    come from `cur`; when the offset is above 1 and a next byte exists, the high
    bits come from `next` shifted left by 8 - offset, both masked to 7 bits.
   */
  function Unpack(cur: Byte, next: Byte, hasNext: bool, offset: nat): (c: Byte)
    requires offset < 8
    ensures c < 0x80
  {
    var lo := ShiftRight16(cur as bv16, offset) & 0x7F;
    var v := if offset > 1 && hasNext then lo | (ShiftLeft16(next as bv16, 8 - offset) & 0x7F) else lo;
    v as Byte
  }

  /** Septet i of packed data: it starts at bit (7i mod 8) of byte 7i div 8. */
  function Septet(data: seq<Byte>, i: nat): (c: Byte)
    requires (i * 7) / 8 < |data|
    ensures c < 0x80
  {
    var k := (i * 7) / 8;
    Unpack(data[k], if k + 1 < |data| then data[k + 1] else 0, k + 1 < |data|, (i * 7) % 8)
  }

  /** decodeGSM7 reads data[7(n-1)/8] for the last septet: that byte must exist. */
  predicate SeptetsInRange(data: seq<Byte>, septetCount: nat) {
    septetCount == 0 || (7 * (septetCount - 1)) / 8 < |data|
  }

  /** The text decodeGSM7(data, n) returns: exactly n characters, each a 7-bit value. */
  function Gsm7(data: seq<Byte>, septetCount: nat): (text: seq<Byte>)
    requires SeptetsInRange(data, septetCount)
    ensures |text| == septetCount
    ensures forall i :: 0 <= i < septetCount ==> text[i] < 0x80
  {
    seq(septetCount, i requires 0 <= i < septetCount => Septet(data, i))
  }

  method DecodeGsm7(data: seq<Byte>, septetCount: nat) returns (out: seq<Byte>)
    requires SeptetsInRange(data, septetCount)
    ensures out == Gsm7(data, septetCount)
  {
    out := [];
    var i := 0;
    while i < septetCount
      invariant i <= septetCount
      invariant out == Gsm7(data, septetCount)[..i]
    {
      var byteIndex := (i * 7) / 8;
      var bitOffset := (i * 7) % 8;
      var hasNext := byteIndex + 1 < |data|;
      var c := Unpack(data[byteIndex], if hasNext then data[byteIndex + 1] else 0, hasNext, bitOffset);
      assert Gsm7(data, septetCount)[..i + 1] == Gsm7(data, septetCount)[..i] + [c];
      out := out + [c];
      i := i + 1;
    }
  }

  /** Two septets combined into the byte that holds the tail of `x` from bit r on and the head of `y`. */
  function Combine(x: Byte, y: Byte, r: nat): Byte
    requires r < 7
  {
    ShiftRight8(x, r) | ShiftLeft8(y, 7 - r)
  }

  function PackedLength(septetCount: nat): nat {
    (7 * septetCount + 7) / 8
  }

  /** Byte j of packed septets: bits 8j .. 8j+7 of the septet stream. */
  function PackedByte(s: seq<Byte>, j: nat): Byte
    requires (8 * j) / 7 < |s|
  {
    var i := (8 * j) / 7;
    Combine(s[i], if i + 1 < |s| then s[i + 1] else 0, (8 * j) % 7)
  }

  /** The 7-bit packing of a septet sequence, the encoder decodeGSM7 inverts. */
  function Pack7(s: seq<Byte>): (data: seq<Byte>)
    ensures |data| == PackedLength(|s|)
  {
    seq(PackedLength(|s|), j requires 0 <= j < PackedLength(|s|) => PackedByte(s, j))
  }

  lemma SeptetIndex(i: nat)
    ensures var k := (i * 7) / 8; var offset := (i * 7) % 8;
      (offset == 0 ==> (8 * k) / 7 == i && (8 * k) % 7 == 0) &&
      (offset != 0 ==> (8 * k) / 7 == i - 1 && (8 * k) % 7 == 7 - offset) &&
      (offset > 1 ==> (8 * (k + 1)) / 7 == i && (8 * (k + 1)) % 7 == 8 - offset)
  {
  }

  /** Unpacking the bytes that packing built around septet `x` gives `x` back, at every offset. */
  lemma UnpackCombined(offset: nat, prev: Byte, x: Byte, next: Byte, after: Byte, hasNext: bool)
    requires offset < 8 && x < 0x80 && prev < 0x80
    requires offset > 1 ==> hasNext
    ensures offset == 0 ==> Unpack(Combine(x, next, 0), after, hasNext, 0) == x
    ensures offset > 0 ==>
      Unpack(Combine(prev, x, 7 - offset), if offset > 1 then Combine(x, next, 8 - offset) else after, hasNext, offset) == x
  {
    if offset == 0 {
    } else if offset == 1 {
    } else if offset == 2 {
    } else if offset == 3 {
    } else if offset == 4 {
    } else if offset == 5 {
    } else if offset == 6 {
    } else {
    }
  }

  /** Septet i read from the byte k and bit offset that decodeGSM7 computes. */
  lemma SeptetAt(data: seq<Byte>, i: nat, k: nat, offset: nat)
    requires k == (i * 7) / 8 && offset == (i * 7) % 8 && k < |data|
    ensures Septet(data, i) == Unpack(data[k], if k + 1 < |data| then data[k + 1] else 0, k + 1 < |data|, offset)
  {
  }

  /** Byte j of the packing, from the septet index and bit position it starts at. */
  lemma PackedAt(s: seq<Byte>, j: nat, i: nat, r: nat)
    requires i == (8 * j) / 7 && r == (8 * j) % 7 && j < PackedLength(|s|)
    ensures i < |s| && Pack7(s)[j] == Combine(s[i], if i + 1 < |s| then s[i + 1] else 0, r)
  {
  }

  /** The bytes septet i starts in, and the one after it when it spills over, exist in the packing. */
  lemma PackedBounds(i: nat, n: nat)
    requires i < n
    ensures (i * 7) / 8 < PackedLength(n)
    ensures (i * 7) % 8 > 1 ==> (i * 7) / 8 + 1 < PackedLength(n)
  {
  }

  /** Septet i of any bytes that hold x at the place decodeGSM7 reads it, after prev and before next. */
  lemma SeptetFromBytes(b: seq<Byte>, i: nat, k: nat, offset: nat, prev: Byte, x: Byte, next: Byte)
    requires k == (i * 7) / 8 && offset == (i * 7) % 8 && k < |b|
    requires x < 0x80 && prev < 0x80
    requires offset == 0 ==> b[k] == Combine(x, next, 0)
    requires offset > 0 ==> b[k] == Combine(prev, x, 7 - offset)
    requires offset > 1 ==> k + 1 < |b| && b[k + 1] == Combine(x, next, 8 - offset)
    ensures Septet(b, i) == x
  {
    SeptetAt(b, i, k, offset);
    UnpackCombined(offset, prev, x, next, if k + 1 < |b| then b[k + 1] else 0, k + 1 < |b|);
  }

  lemma SeptetOfPacked(s: seq<Byte>, i: nat)
    requires forall k :: 0 <= k < |s| ==> s[k] < 0x80
    requires i < |s|
    ensures (i * 7) / 8 < |Pack7(s)| && Septet(Pack7(s), i) == s[i]
  {
    var k := (i * 7) / 8;
    var offset := (i * 7) % 8;
    SeptetIndex(i);
    PackedBounds(i, |s|);
    var next: Byte := if i + 1 < |s| then s[i + 1] else 0;
    var prev: Byte := 0;
    if offset == 0 {
      PackedAt(s, k, i, 0);
    } else {
      prev := s[i - 1];
      PackedAt(s, k, i - 1, 7 - offset);
      if offset > 1 {
        PackedAt(s, k + 1, i, 8 - offset);
      }
    }
    SeptetFromBytes(Pack7(s), i, k, offset, prev, s[i], next);
  }

  /** decodeGSM7 inverts 7-bit packing: any 7-bit text packed and unpacked with its length is itself. */
  lemma Gsm7RoundTrip(s: seq<Byte>)
    requires forall k :: 0 <= k < |s| ==> s[k] < 0x80
    ensures SeptetsInRange(Pack7(s), |s|)
    ensures Gsm7(Pack7(s), |s|) == s
  {
    if |s| > 0 {
      SeptetOfPacked(s, |s| - 1);
    }
    forall i | 0 <= i < |s|
      ensures Gsm7(Pack7(s), |s|)[i] == s[i]
    {
      SeptetOfPacked(s, i);
    }
  }

  // ---------------------------------------------------------------------------
  // decodeUCS2 (sms.cpp:50-73): RFC 3629 section 3, one- to three-byte forms
  // ---------------------------------------------------------------------------

  /** The big-endian 16-bit unit (data[i] << 8) | data[i + 1]. */
  function Unit(hi: Byte, lo: Byte): bv16 {
    ((hi as bv16) << 8) | (lo as bv16)
  }

  predicate IsContinuation(b: Byte) {
    0x80 <= b <= 0xBF
  }

  /** The bytes decodeUCS2 appends for one unit, with the lead and continuation ranges of RFC 3629. */
  function EncodeUnit(ch: bv16): (out: seq<Byte>)
    ensures ch < 0x80 ==> out == [ch as Byte]
    ensures 0x80 <= ch < 0x800 ==> |out| == 2 && 0xC0 <= out[0] <= 0xDF && IsContinuation(out[1])
    ensures 0x800 <= ch ==> |out| == 3 && 0xE0 <= out[0] <= 0xEF && IsContinuation(out[1]) && IsContinuation(out[2])
  {
    if ch < 0x80 then [ch as Byte]
    else if ch < 0x800 then [(0xC0 | (ch >> 6)) as Byte, (0x80 | (ch & 0x3F)) as Byte]
    else [(0xE0 | (ch >> 12)) as Byte, (0x80 | ((ch >> 6) & 0x3F)) as Byte, (0x80 | (ch & 0x3F)) as Byte]
  }

  lemma EncodeUnitBytes(ch: bv16)
    ensures 0x80 <= ch < 0x800 ==> EncodeUnit(ch) == [(0xC0 | (ch >> 6)) as Byte, (0x80 | (ch & 0x3F)) as Byte]
    ensures 0x800 <= ch ==>
      EncodeUnit(ch) == [(0xE0 | (ch >> 12)) as Byte, (0x80 | ((ch >> 6) & 0x3F)) as Byte, (0x80 | (ch & 0x3F)) as Byte]
  {
  }

  /** The 16-bit units of the data; a trailing odd byte belongs to none. */
  function Units(data: seq<Byte>): (units: seq<bv16>)
    ensures |units| == |data| / 2
  {
    seq(|data| / 2, k requires 0 <= k < |data| / 2 => Unit(data[2 * k], data[2 * k + 1]))
  }

  /** The text decodeUCS2 returns: the per-unit encodings, concatenated in order. */
  function Ucs2(data: seq<Byte>): seq<Byte>
    decreases |data|
  {
    if |data| < 2 then [] else EncodeUnit(Unit(data[0], data[1])) + Ucs2(data[2..])
  }

  /** The branches of the loop body of decodeUCS2: append the encoding of one unit. */
  method PushUnit(out: seq<Byte>, ch: bv16) returns (r: seq<Byte>)
    ensures r == out + EncodeUnit(ch)
  {
    r := out;
    if ch < 0x80 {
      r := r + [ch as Byte];
    } else if ch < 0x800 {
      r := r + [(0xC0 | (ch >> 6)) as Byte];
      r := r + [(0x80 | (ch & 0x3F)) as Byte];
      EncodeUnitBytes(ch);
    } else {
      r := r + [(0xE0 | (ch >> 12)) as Byte];
      r := r + [(0x80 | ((ch >> 6) & 0x3F)) as Byte];
      r := r + [(0x80 | (ch & 0x3F)) as Byte];
      EncodeUnitBytes(ch);
    }
  }

  method DecodeUcs2(data: seq<Byte>) returns (out: seq<Byte>)
    ensures out == Ucs2(data)
  {
    out := [];
    var i := 0;
    while i + 1 < |data|
      invariant i % 2 == 0 && i <= |data|
      invariant out + Ucs2(data[i..]) == Ucs2(data)
    {
      assert data[i..][2..] == data[i + 2..];
      var ch := Unit(data[i], data[i + 1]);
      out := PushUnit(out, ch);
      i := i + 2;
    }
  }

  /** The unit a two-byte form carries: five bits of the lead byte, six of the continuation. */
  function Lead2(b0: Byte, b1: Byte): bv16 {
    (((b0 & 0x1F) as bv16) << 6) | ((b1 & 0x3F) as bv16)
  }

  /** The unit a three-byte form carries: four bits of the lead byte, six of each continuation. */
  function Lead3(b0: Byte, b1: Byte, b2: Byte): bv16 {
    (((b0 & 0x0F) as bv16) << 12) | (((b1 & 0x3F) as bv16) << 6) | ((b2 & 0x3F) as bv16)
  }

  /** A reader of the one- to three-byte forms, as RFC 3629 section 3 lays them out. */
  function DecodeUtf8(bytes: seq<Byte>): Option<seq<bv16>>
    decreases |bytes|
  {
    if bytes == [] then Some([])
    else
      var b0 := bytes[0];
      if b0 < 0x80 then
        match DecodeUtf8(bytes[1..])
        case Some(rest) => Some([b0 as bv16] + rest)
        case None => None
      else if 0xC0 <= b0 <= 0xDF && |bytes| >= 2 && IsContinuation(bytes[1]) then
        match DecodeUtf8(bytes[2..])
        case Some(rest) => Some([Lead2(b0, bytes[1])] + rest)
        case None => None
      else if 0xE0 <= b0 <= 0xEF && |bytes| >= 3 && IsContinuation(bytes[1]) && IsContinuation(bytes[2]) then
        match DecodeUtf8(bytes[3..])
        case Some(rest) => Some([Lead3(b0, bytes[1], bytes[2])] + rest)
        case None => None
      else None
  }

  /** One unit followed by a decoded tail: what the reader yields for that unit's form. */
  function Prepend(ch: bv16, tail: Option<seq<bv16>>): Option<seq<bv16>> {
    match tail
    case Some(us) => Some([ch] + us)
    case None => None
  }

  lemma OneByteForm(ch: bv16)
    requires ch < 0x80
    ensures EncodeUnit(ch)[0] as bv16 == ch
  {
  }

  /** The payload bits of a lead or continuation byte, read back through its mask. */
  lemma PayloadBits(tag: bv16, mask: bv16, bits: bv16)
    requires tag <= 0xE0 && (tag & mask) == 0 && bits <= mask
    requires mask == 0x0F || mask == 0x1F || mask == 0x3F
    ensures (((tag | bits) as Byte) & (mask as Byte)) as bv16 == bits
  {
  }

  lemma TwoByteForm(ch: bv16)
    requires 0x80 <= ch < 0x800
    ensures Lead2(EncodeUnit(ch)[0], EncodeUnit(ch)[1]) == ch
  {
    EncodeUnitBytes(ch);
    PayloadBits(0xC0, 0x1F, ch >> 6);
    PayloadBits(0x80, 0x3F, ch & 0x3F);
    assert ((ch >> 6) << 6) | (ch & 0x3F) == ch;
  }

  lemma ThreeByteForm(ch: bv16)
    requires 0x800 <= ch
    ensures Lead3(EncodeUnit(ch)[0], EncodeUnit(ch)[1], EncodeUnit(ch)[2]) == ch
  {
    EncodeUnitBytes(ch);
    PayloadBits(0xE0, 0x0F, ch >> 12);
    PayloadBits(0x80, 0x3F, (ch >> 6) & 0x3F);
    PayloadBits(0x80, 0x3F, ch & 0x3F);
    assert ((ch >> 12) << 12) | (((ch >> 6) & 0x3F) << 6) | (ch & 0x3F) == ch;
  }

  lemma DecodeOneByte(ch: bv16, rest: seq<Byte>)
    requires ch < 0x80
    ensures DecodeUtf8(EncodeUnit(ch) + rest) == Prepend(ch, DecodeUtf8(rest))
  {
    var bytes := EncodeUnit(ch) + rest;
    assert bytes[1..] == rest;
    OneByteForm(ch);
  }

  lemma DecodeTwoBytes(ch: bv16, rest: seq<Byte>)
    requires 0x80 <= ch < 0x800
    ensures DecodeUtf8(EncodeUnit(ch) + rest) == Prepend(ch, DecodeUtf8(rest))
  {
    var e := EncodeUnit(ch);
    var bytes := e + rest;
    assert bytes[0] == e[0] && bytes[1] == e[1] && bytes[2..] == rest;
    TwoByteForm(ch);
  }

  lemma DecodeThreeBytes(ch: bv16, rest: seq<Byte>)
    requires 0x800 <= ch
    ensures DecodeUtf8(EncodeUnit(ch) + rest) == Prepend(ch, DecodeUtf8(rest))
  {
    var e := EncodeUnit(ch);
    var bytes := e + rest;
    assert bytes[0] == e[0] && bytes[1] == e[1] && bytes[2] == e[2] && bytes[3..] == rest;
    ThreeByteForm(ch);
  }

  /** Reading one unit's encoding back, ahead of any further bytes, gives the unit. */
  lemma DecodeEncodedUnit(ch: bv16, rest: seq<Byte>)
    ensures DecodeUtf8(EncodeUnit(ch) + rest) == Prepend(ch, DecodeUtf8(rest))
  {
    if ch < 0x80 {
      DecodeOneByte(ch, rest);
    } else if ch < 0x800 {
      DecodeTwoBytes(ch, rest);
    } else {
      DecodeThreeBytes(ch, rest);
    }
  }

  lemma UnitsCons(data: seq<Byte>)
    requires |data| >= 2
    ensures Units(data) == [Unit(data[0], data[1])] + Units(data[2..])
  {
    var tail := data[2..];
    assert forall k :: 0 <= k < |tail| / 2 ==> tail[2 * k] == data[2 * k + 2] && tail[2 * k + 1] == data[2 * k + 3];
  }

  /** decodeUCS2 loses nothing: reading its output back yields every 16-bit unit, surrogates included. */
  lemma {:induction false} Ucs2RoundTrip(data: seq<Byte>)
    ensures DecodeUtf8(Ucs2(data)) == Some(Units(data))
    decreases |data|
  {
    if |data| >= 2 {
      var u := Unit(data[0], data[1]);
      Ucs2RoundTrip(data[2..]);
      assert Ucs2(data) == EncodeUnit(u) + Ucs2(data[2..]);
      DecodeEncodedUnit(u, Ucs2(data[2..]));
      UnitsCons(data);
    }
  }

  /** A trailing odd byte never contributes to the text. */
  lemma {:induction false} Ucs2IgnoresOddByte(data: seq<Byte>, b: Byte)
    requires |data| % 2 == 0
    ensures Ucs2(data + [b]) == Ucs2(data)
    decreases |data|
  {
    if |data| >= 2 {
      assert (data + [b])[2..] == data[2..] + [b];
      Ucs2IgnoresOddByte(data[2..], b);
    }
  }

  // ---------------------------------------------------------------------------
  // decodeTimestamp (sms.cpp:75-92)
  // ---------------------------------------------------------------------------

  /** The characters the loop of decodeTimestamp has emitted once its index reaches i: each pair swapped. */
  function SwappedBefore(hex: string, i: nat): string
    requires i <= |hex| + 1
  {
    if i < 2 then [] else SwappedBefore(hex, i - 2) + [CharAt(hex, i - 1), hex[i - 2]]
  }

  /** Each pair of characters swapped: the only change decodeTimestamp makes. */
  function SwapPairs(hex: string): string {
    SwappedBefore(hex, |hex| + |hex| % 2)
  }

  /**
    The loop of decodeTimestamp, with its separator tests. The index steps by
    two from zero, so it is never 3, 5, 7, 9 or 11 and no separator is added.
   */
  method DecodeTimestamp(hex: string) returns (ts: string)
    ensures ts == SwapPairs(hex)
  {
    ts := [];
    var i := 0;
    ghost var n := 0;
    while i < |hex|
      invariant i == 2 * n && i <= |hex| + 1
      invariant ts == SwappedBefore(hex, i)
    {
      ts := ts + [CharAt(hex, i + 1)];
      ts := ts + [hex[i]];
      if i == 3 || i == 5 {
        ts := ts + ['/'];
      } else if i == 7 {
        ts := ts + [','];
      } else if i == 9 || i == 11 {
        ts := ts + [':'];
      }
      i := i + 2;
      n := n + 1;
    }
    assert i == |hex| + |hex| % 2;
  }

  lemma {:induction false} SwappedBeforeAt(hex: string, m: nat, k: nat)
    requires 2 * m <= |hex| && k < m
    ensures |SwappedBefore(hex, 2 * m)| == 2 * m
    ensures SwappedBefore(hex, 2 * m)[2 * k] == hex[2 * k + 1] && SwappedBefore(hex, 2 * m)[2 * k + 1] == hex[2 * k]
    decreases m
  {
    if k + 1 < m {
      SwappedBeforeAt(hex, m - 1, k);
    } else if m > 1 {
      SwappedBeforeAt(hex, m - 1, 0);
    }
  }

  /** On an even-length input the timestamp has the same length and is the pairwise swap. */
  lemma TimestampIsPairSwap(hex: string, k: nat)
    requires |hex| % 2 == 0 && k < |hex| / 2
    ensures |SwapPairs(hex)| == |hex|
    ensures SwapPairs(hex)[2 * k] == hex[2 * k + 1] && SwapPairs(hex)[2 * k + 1] == hex[2 * k]
  {
    SwappedBeforeAt(hex, |hex| / 2, k);
  }

  lemma {:induction false} SwappedBeforeChars(hex: string, i: nat)
    requires i <= |hex|
    ensures forall c :: c in SwappedBefore(hex, i) ==> c in hex
    decreases i
  {
    if i >= 2 {
      SwappedBeforeChars(hex, i - 2);
      assert hex[i - 1] in hex && hex[i - 2] in hex;
    }
  }

  /** No separator appears unless it was already in the input. */
  lemma TimestampAddsNoSeparator(hex: string)
    requires |hex| % 2 == 0
    ensures forall c :: c in SwapPairs(hex) ==> c in hex
  {
    SwappedBeforeChars(hex, |hex|);
  }

  /** Swapping twice restores an even-length input. */
  lemma SwapPairsInvolution(hex: string)
    requires |hex| % 2 == 0
    ensures SwapPairs(SwapPairs(hex)) == hex
  {
    var ts := SwapPairs(hex);
    if |hex| > 0 {
      TimestampIsPairSwap(hex, 0);
      TimestampIsPairSwap(ts, 0);
      forall j | 0 <= j < |hex|
        ensures SwapPairs(ts)[j] == hex[j]
      {
        var k := j / 2;
        TimestampIsPairSwap(hex, k);
        TimestampIsPairSwap(ts, k);
      }
    }
  }
}
