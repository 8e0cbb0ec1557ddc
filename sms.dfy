/**
  The SMS record and its constructor from an SMS-DELIVER PDU
  (uart_service/src/sms.cpp:95-167, uart_service/include/sms.hpp:22-27).

  The constructor walks the hexadecimal PDU with a cursor: the service-centre
  address, the first octet (skipped), the sender address, the protocol
  identifier (skipped), the data coding scheme, the timestamp, the user data
  length and the user data. Only two bytes decide where every field lies: the
  SMSC length byte at the front and the sender length byte after the SMSC
  block. The layout is therefore given by position functions of those two
  lengths; the cursor method is proved to produce what the layout describes,
  and the description is proved to invert an encoder of the same layout.
 */
module Sms {
  import opened Wrappers
  import opened SmsPdu
  import opened Sequences

  /** The four text fields of an SMS; content holds the decoded bytes. */
  datatype Sms = Sms(smsc: string, sender: string, timestamp: string, content: seq<Byte>)

  /** Utils::Error::SMSParseError: the raw PDU and the data coding scheme it could not recognise. */
  datatype SmsParseError = SmsParseError(pdu: string, dcs: nat)

  // ---------------------------------------------------------------------------
  // Field layout
  // ---------------------------------------------------------------------------

  /** The octet the constructor reads at position i; only read where the PDU holds two hexadecimal digits. */
  function OctetAt(pdu: string, i: nat): (v: nat)
    ensures v < 256
  {
    if HexPairAt(pdu, i) then HexByteAt(pdu, i) else 0
  }

  /** Octets of service-centre information (type byte and digits) announced by the first byte. */
  function SmscLength(pdu: string): nat {
    OctetAt(pdu, 0)
  }

  /** With n octets of SMSC information, the sender length byte follows them and the skipped first octet. */
  function SenderLengthPos(n: nat): nat {
    2 + 2 * n + 2
  }

  /** Sender digits announced by the PDU. */
  function SenderLength(pdu: string): nat {
    OctetAt(pdu, SenderLengthPos(SmscLength(pdu)))
  }

  /** Characters the semi-octet sender field occupies: the digits rounded up to whole octets. */
  function SenderField(len: nat): nat {
    (len + 1) / 2 * 2
  }

  /** The sender digits start after the length byte and the type-of-address byte. */
  function SenderPos(n: nat): nat {
    SenderLengthPos(n) + 4
  }

  /** The data coding scheme follows the len sender digits and the skipped protocol identifier. */
  function DcsPos(n: nat, len: nat): nat {
    SenderPos(n) + SenderField(len) + 2
  }

  function TimestampPos(n: nat, len: nat): nat {
    DcsPos(n, len) + 2
  }

  function UdlPos(n: nat, len: nat): nat {
    TimestampPos(n, len) + 14
  }

  function UserDataPos(n: nat, len: nat): nat {
    UdlPos(n, len) + 2
  }

  /** dcs & 0x0C: bits 2 and 3 of the data coding scheme, the character set (CharacterSetIsMask). */
  function CharacterSet(dcs: nat): nat {
    (dcs / 4) % 4 * 4
  }

  /** The data coding scheme for SMSC length n and sender length len. */
  function Dcs(pdu: string, n: nat, len: nat): nat {
    OctetAt(pdu, DcsPos(n, len))
  }

  /** The user data length: septets for 7-bit text. */
  function Udl(pdu: string, n: nat, len: nat): nat {
    OctetAt(pdu, UdlPos(n, len))
  }

  /** hexToBytes of everything after the user data length. */
  function UserData(pdu: string, n: nat, len: nat): seq<Byte>
    requires UserDataPos(n, len) <= |pdu| && IsHex(pdu[UserDataPos(n, len)..])
  {
    HexBytes(pdu[UserDataPos(n, len)..])
  }

  /** The two length bytes are hexadecimal, so std::stoi reads them. */
  predicate LengthsReadable(pdu: string) {
    HexPairAt(pdu, 0) && HexPairAt(pdu, SenderLengthPos(SmscLength(pdu)))
  }

  /**
    With SMSC length n and sender length len: every field up to the user data
    lies inside the PDU, the two coding bytes are hexadecimal, the user data is
    hexadecimal, and for 7-bit text the last septet starts inside the user data.
   */
  predicate WellFormedAt(pdu: string, n: nat, len: nat) {
    && UserDataPos(n, len) <= |pdu|
    && HexPairAt(pdu, DcsPos(n, len))
    && HexPairAt(pdu, UdlPos(n, len))
    && IsHex(pdu[UserDataPos(n, len)..])
    && (CharacterSet(Dcs(pdu, n, len)) == 0x00 ==> SeptetsInRange(UserData(pdu, n, len), Udl(pdu, n, len)))
  }

  /**
    The PDUs the constructor reads without std::stoi or substr throwing and
    without reading past the user data: the four bytes it converts are
    hexadecimal and the fields its two length bytes place lie inside.
   */
  predicate WellFormedPdu(pdu: string) {
    LengthsReadable(pdu) && WellFormedAt(pdu, SmscLength(pdu), SenderLength(pdu))
  }

  /** The service-centre number: empty when no SMSC block is present, else its digits after the type byte. */
  function SmscDigits(pdu: string, n: nat): string
    requires 2 + 2 * n <= |pdu|
  {
    if n > 0 then SemiOctet(pdu[4 .. 2 + 2 * n], (n - 1) * 2) else ""
  }

  /** The sender number: len digits from the semi-octets after the type-of-address byte. */
  function SenderDigits(pdu: string, n: nat, len: nat): string
    requires SenderPos(n) + SenderField(len) <= |pdu|
  {
    SemiOctet(pdu[SenderPos(n) .. SenderPos(n) + SenderField(len)], len)
  }

  /** The timestamp: the seven octets after the data coding scheme with the digits of each one swapped. */
  function TimestampDigits(pdu: string, n: nat, len: nat): string
    requires TimestampPos(n, len) + 14 <= |pdu|
  {
    SwapPairs(pdu[TimestampPos(n, len) .. TimestampPos(n, len) + 14])
  }

  /** The decoded content: UCS2 over all user data, or udl septets of 7-bit text. */
  function Content(dcs: nat, udl: nat, ud: seq<Byte>): seq<Byte>
    requires CharacterSet(dcs) == 0x08 || (CharacterSet(dcs) == 0x00 && SeptetsInRange(ud, udl))
  {
    if CharacterSet(dcs) == 0x08 then Ucs2(ud) else Gsm7(ud, udl)
  }

  /** The record, or the parse error, for a PDU whose length bytes announce n and len. */
  function DecodeAt(pdu: string, n: nat, len: nat): Result<Sms, SmsParseError>
    requires WellFormedAt(pdu, n, len)
  {
    var dcs := Dcs(pdu, n, len);
    var cs := CharacterSet(dcs);
    if cs != 0x08 && cs != 0x00 then Failure(SmsParseError(pdu, dcs))
    else Success(Sms(SmscDigits(pdu, n), SenderDigits(pdu, n, len), TimestampDigits(pdu, n, len),
                     Content(dcs, Udl(pdu, n, len), UserData(pdu, n, len))))
  }

  /** What SMS::SMS(pdu) constructs, or the SMSParseError it throws. */
  function DecodePdu(pdu: string): Result<Sms, SmsParseError>
    requires WellFormedPdu(pdu)
  {
    DecodeAt(pdu, SmscLength(pdu), SenderLength(pdu))
  }

  // ---------------------------------------------------------------------------
  // The constructor (sms.cpp:95-167)
  // ---------------------------------------------------------------------------

  /**
    SMS::SMS(pdu): the cursor walk, with the content decoded once in the switch
    (where an unknown character set throws) and again in the following if-chain.
   */
  method ParsePdu(pdu: string) returns (r: Result<Sms, SmsParseError>)
    requires WellFormedPdu(pdu)
    ensures r == DecodePdu(pdu)
  {
    ghost var n, len := SmscLength(pdu), SenderLength(pdu);
    var smsc, idx := ReadSmsc(pdu);

    // First octet of SMS-DELIVER
    idx := idx + 2;

    assert idx == SenderLengthPos(n);
    var sender;
    sender, idx := ReadSender(pdu, idx);
    assert sender == SenderDigits(pdu, n, len);

    // PID
    idx := idx + 2;

    assert idx == DcsPos(n, len);
    var dcs := HexByteAt(pdu, idx);
    assert dcs == Dcs(pdu, n, len);
    idx := idx + 2;

    var timestamp := DecodeTimestamp(pdu[idx .. idx + 14]);
    assert timestamp == TimestampDigits(pdu, n, len);
    idx := idx + 14;

    var udl := HexByteAt(pdu, idx);
    assert udl == Udl(pdu, n, len);
    idx := idx + 2;

    var ud := HexToBytes(pdu[idx..]);
    assert ud == UserData(pdu, n, len);

    var known, content := DecodeUserData(dcs, udl, ud);
    if !known {
      return Failure(SmsParseError(pdu, dcs));
    }
    r := Success(Sms(smsc, sender, timestamp, content));
  }

  /**
    The SMSC block of the cursor walk: the length byte, then (when non-zero)
    the block, whose type byte is skipped and whose digits are decoded. The
    cursor is left on the first octet of SMS-DELIVER.
   */
  method ReadSmsc(pdu: string) returns (smsc: string, idx: nat)
    requires HexPairAt(pdu, 0) && 2 + 2 * SmscLength(pdu) <= |pdu|
    ensures smsc == SmscDigits(pdu, SmscLength(pdu)) && idx == 2 + 2 * SmscLength(pdu)
  {
    idx := 0;
    var smscLen := HexByteAt(pdu, idx);
    smsc := "";
    if smscLen > 0 {
      var smscInfo := pdu[idx + 2 .. idx + 2 + smscLen * 2];
      assert smscInfo[2..] == pdu[4 .. 2 + 2 * smscLen];
      smsc := DecodeSemiOctet(smscInfo[2..], (smscLen - 1) * 2);
    }
    idx := idx + 2 + smscLen * 2;
  }

  /**
    The sender part of the cursor walk, from the sender length byte: the
    length, the skipped type-of-address byte and the digits. The cursor is left
    on the protocol identifier.
   */
  method ReadSender(pdu: string, start: nat) returns (sender: string, idx: nat)
    requires HexPairAt(pdu, start) && start + 4 + SenderField(OctetAt(pdu, start)) <= |pdu|
    ensures idx == start + 4 + SenderField(OctetAt(pdu, start))
    ensures sender == SemiOctet(pdu[start + 4 .. idx], OctetAt(pdu, start))
  {
    idx := start;
    var senderLen := HexByteAt(pdu, idx);
    idx := idx + 2;

    // Type-of-address
    idx := idx + 2;

    var senderBytes := (senderLen + 1) / 2 * 2;
    sender := DecodeSemiOctet(pdu[idx .. idx + senderBytes], senderLen);
    idx := idx + senderBytes;
  }

  /**
    The content step of the constructor: the switch on dcs & 0x0C, where an
    unknown character set throws (known is false), then the if-chain that
    decodes the same user data a second time into the same content.
   */
  method DecodeUserData(dcs: nat, udl: nat, ud: seq<Byte>) returns (known: bool, content: seq<Byte>)
    requires dcs < 256
    requires CharacterSet(dcs) == 0x00 ==> SeptetsInRange(ud, udl)
    ensures known <==> CharacterSet(dcs) == 0x08 || CharacterSet(dcs) == 0x00
    ensures CharacterSet(dcs) == 0x08 ==> content == Ucs2(ud)
    ensures CharacterSet(dcs) == 0x00 ==> content == Gsm7(ud, udl)
  {
    content := [];
    var cs := CharacterSet(dcs);
    if cs == 0x08 {
      content := DecodeUcs2(ud);
    } else if cs == 0x00 {
      content := DecodeGsm7(ud, udl);
    } else {
      return false, content;
    }

    if cs == 0x08 {
      content := DecodeUcs2(ud);
    } else if cs == 0x00 {
      content := DecodeGsm7(ud, udl);
    }
    known := true;
  }

  // ---------------------------------------------------------------------------
  // Properties of the decoded record
  // ---------------------------------------------------------------------------

  /**
    The data coding scheme decides the outcome: bits 0x0C equal to 0x08 give
    UCS2 content read from all the user data, whatever the user data length
    says; 0x00 gives exactly UDL characters of 7-bit text; any other value gives
    an error carrying the raw PDU. DecodePdu is DecodeAt at the PDU's own two
    length bytes, so this holds for the constructor.
   */
  lemma DcsDispatch(pdu: string, n: nat, len: nat)
    requires WellFormedAt(pdu, n, len)
    ensures DecodeAt(pdu, n, len).Failure? <==>
      CharacterSet(Dcs(pdu, n, len)) == 0x04 || CharacterSet(Dcs(pdu, n, len)) == 0x0C
    ensures DecodeAt(pdu, n, len).Failure? ==> DecodeAt(pdu, n, len).error == SmsParseError(pdu, Dcs(pdu, n, len))
    ensures CharacterSet(Dcs(pdu, n, len)) == 0x08 ==> DecodeAt(pdu, n, len).value.content == Ucs2(UserData(pdu, n, len))
    ensures CharacterSet(Dcs(pdu, n, len)) == 0x00 ==>
      && |DecodeAt(pdu, n, len).value.content| == Udl(pdu, n, len)
      && (forall i :: 0 <= i < Udl(pdu, n, len) ==> DecodeAt(pdu, n, len).value.content[i] < 0x80)
  {
  }

  /** The arithmetic form of the character set is the source's mask dcs & 0x0C on a byte. */
  lemma CharacterSetIsMask(b: Byte)
    ensures CharacterSet(b as nat) == (b & 0x0C) as nat
  {
    CharacterSetCases(b);
  }

  lemma CharacterSetCases(b: Byte)
    ensures ((b as nat) / 4) % 4 * 4 == (b & 0x0C) as nat
  {
    var c := b >> 2;
    QuarterOfByte(b);
    assert (b as nat) / 4 == c as nat;
    LowBitsOfByte(c);
    ScaleLowBits(c);
    MaskIsShiftedBits(b);
  }

  lemma QuarterOfByte(b: Byte)
    ensures b as nat == ((b >> 2) as nat) * 4 + (b & 3) as nat
  {
  }

  lemma LowBitsOfByte(c: Byte)
    requires c < 64
    ensures (c as nat) % 4 == (c & 3) as nat
  {
  }

  lemma ScaleLowBits(c: Byte)
    ensures ((c & 3) as nat) * 4 == ((c & 3) << 2) as nat
  {
  }

  lemma MaskIsShiftedBits(b: Byte)
    ensures b & 0x0C == ((b >> 2) & 3) << 2
  {
  }

  // ---------------------------------------------------------------------------
  // Octets the constructor never reads
  // ---------------------------------------------------------------------------

  /**
    For SMSC length n and sender length len, position k starts an octet the
    cursor steps over without reading: the SMSC type byte, the first octet of
    SMS-DELIVER, the sender type-of-address, or the protocol identifier.
   */
  predicate SkippedAt(n: nat, len: nat, k: nat) {
    || (n > 0 && k == 2)
    || k == SenderLengthPos(n) - 2
    || k == SenderLengthPos(n) + 2
    || k == DcsPos(n, len) - 2
  }

  predicate SkippedOctet(pdu: string, k: nat) {
    SkippedAt(SmscLength(pdu), SenderLength(pdu), k)
  }

  /** The PDU with the two characters of the octet at position k replaced. */
  function WithOctet(pdu: string, k: nat, c0: char, c1: char): (q: string)
    requires k + 2 <= |pdu|
    ensures |q| == |pdu|
  {
    pdu[..k] + [c0, c1] + pdu[k + 2..]
  }

  /** Replacing an octet leaves every other character unchanged. */
  lemma SameChar(p: string, k: nat, c0: char, c1: char, i: nat)
    requires k + 2 <= |p| && i < |p| && (i < k || k + 2 <= i)
    ensures WithOctet(p, k, c0, c1)[i] == p[i]
  {
  }

  /** Replacing an octet leaves every slice that does not overlap it unchanged. */
  lemma SameSlice(p: string, k: nat, c0: char, c1: char, lo: nat, hi: nat)
    requires k + 2 <= |p| && lo <= hi <= |p| && (k + 2 <= lo || hi <= k)
    ensures WithOctet(p, k, c0, c1)[lo..hi] == p[lo..hi]
  {
    forall i | lo <= i < hi
      ensures WithOctet(p, k, c0, c1)[i] == p[i]
    {
      SameChar(p, k, c0, c1, i);
    }
  }

  /** A skipped octet lies before or after each byte and field the constructor reads. */
  lemma SkippedOutside(n: nat, len: nat, k: nat)
    requires SkippedAt(n, len, k)
    ensures 2 <= k
    ensures k + 2 <= 4 || 2 + 2 * n <= k
    ensures k + 2 <= SenderLengthPos(n) || SenderLengthPos(n) + 2 <= k
    ensures k + 2 <= SenderPos(n) || SenderPos(n) + SenderField(len) <= k
    ensures k + 2 <= DcsPos(n, len)
  {
  }

  /** Replacing a skipped octet keeps the two length bytes. */
  lemma SameLengths(p: string, k: nat, c0: char, c1: char)
    requires LengthsReadable(p) && k + 2 <= |p| && SkippedOctet(p, k)
    ensures LengthsReadable(WithOctet(p, k, c0, c1))
    ensures SmscLength(WithOctet(p, k, c0, c1)) == SmscLength(p)
    ensures SenderLength(WithOctet(p, k, c0, c1)) == SenderLength(p)
  {
    var q := WithOctet(p, k, c0, c1);
    var n := SmscLength(p);
    SkippedOutside(n, SenderLength(p), k);
    SameChar(p, k, c0, c1, 0);
    SameChar(p, k, c0, c1, 1);
    assert SmscLength(q) == n;
    var l := SenderLengthPos(n);
    SameChar(p, k, c0, c1, l);
    SameChar(p, k, c0, c1, l + 1);
  }

  /** Replacing a skipped octet keeps the coding bytes and the user data, so the PDU stays well formed. */
  lemma SameCoding(p: string, k: nat, c0: char, c1: char, n: nat, len: nat)
    requires WellFormedAt(p, n, len) && k + 2 <= |p| && SkippedAt(n, len, k)
    ensures WellFormedAt(WithOctet(p, k, c0, c1), n, len)
    ensures Dcs(WithOctet(p, k, c0, c1), n, len) == Dcs(p, n, len)
    ensures Udl(WithOctet(p, k, c0, c1), n, len) == Udl(p, n, len)
    ensures UserData(WithOctet(p, k, c0, c1), n, len) == UserData(p, n, len)
  {
    var q := WithOctet(p, k, c0, c1);
    SkippedOutside(n, len, k);
    var dp, up, ud := DcsPos(n, len), UdlPos(n, len), UserDataPos(n, len);
    SameChar(p, k, c0, c1, dp);
    SameChar(p, k, c0, c1, dp + 1);
    SameChar(p, k, c0, c1, up);
    SameChar(p, k, c0, c1, up + 1);
    SameSlice(p, k, c0, c1, ud, |p|);
    assert q[ud..] == p[ud..];
  }

  /** Replacing an octet outside the SMSC digits keeps the service-centre number. */
  lemma SameSmsc(p: string, k: nat, c0: char, c1: char, n: nat)
    requires 2 + 2 * n <= |p| && k + 2 <= |p| && (k + 2 <= 4 || 2 + 2 * n <= k)
    ensures SmscDigits(WithOctet(p, k, c0, c1), n) == SmscDigits(p, n)
  {
    if n > 0 {
      SameSlice(p, k, c0, c1, 4, 2 + 2 * n);
    }
  }

  /** Replacing an octet outside the sender digits keeps the sender number. */
  lemma SameSender(p: string, k: nat, c0: char, c1: char, n: nat, len: nat)
    requires SenderPos(n) + SenderField(len) <= |p| && k + 2 <= |p|
    requires k + 2 <= SenderPos(n) || SenderPos(n) + SenderField(len) <= k
    ensures SenderDigits(WithOctet(p, k, c0, c1), n, len) == SenderDigits(p, n, len)
  {
    SameSlice(p, k, c0, c1, SenderPos(n), SenderPos(n) + SenderField(len));
  }

  /** Replacing an octet before the timestamp keeps it. */
  lemma SameTimestamp(p: string, k: nat, c0: char, c1: char, n: nat, len: nat)
    requires TimestampPos(n, len) + 14 <= |p| && k + 2 <= TimestampPos(n, len)
    ensures TimestampDigits(WithOctet(p, k, c0, c1), n, len) == TimestampDigits(p, n, len)
  {
    SameSlice(p, k, c0, c1, TimestampPos(n, len), TimestampPos(n, len) + 14);
  }

  /** Two PDUs that agree on every field the constructor reads decode alike. */
  lemma SameDecode(p: string, q: string, n: nat, len: nat)
    requires WellFormedAt(p, n, len) && WellFormedAt(q, n, len)
    requires Dcs(q, n, len) == Dcs(p, n, len) && Udl(q, n, len) == Udl(p, n, len)
    requires UserData(q, n, len) == UserData(p, n, len)
    requires SmscDigits(q, n) == SmscDigits(p, n) && SenderDigits(q, n, len) == SenderDigits(p, n, len)
    requires TimestampDigits(q, n, len) == TimestampDigits(p, n, len)
    ensures DecodeAt(q, n, len).Success? <==> DecodeAt(p, n, len).Success?
    ensures DecodeAt(p, n, len).Success? ==> DecodeAt(q, n, len) == DecodeAt(p, n, len)
  {
  }

  /**
    Rewriting a skipped octet (the first octet of SMS-DELIVER among them) with
    any two characters leaves the decoded record, or the fact that decoding
    fails, unchanged.
   */
  lemma SkippedOctetIgnored(p: string, k: nat, c0: char, c1: char)
    requires WellFormedPdu(p) && k + 2 <= |p| && SkippedOctet(p, k)
    ensures WellFormedPdu(WithOctet(p, k, c0, c1))
    ensures DecodePdu(WithOctet(p, k, c0, c1)).Success? <==> DecodePdu(p).Success?
    ensures DecodePdu(p).Success? ==> DecodePdu(WithOctet(p, k, c0, c1)) == DecodePdu(p)
  {
    var q := WithOctet(p, k, c0, c1);
    var n, len := SmscLength(p), SenderLength(p);
    SameLengths(p, k, c0, c1);
    SameCoding(p, k, c0, c1, n, len);
    SkippedOutside(n, len, k);
    SameSmsc(p, k, c0, c1, n);
    SameSender(p, k, c0, c1, n, len);
    SameTimestamp(p, k, c0, c1, n, len);
    SameDecode(p, q, n, len);
  }

  // ---------------------------------------------------------------------------
  // An SMS-DELIVER encoder that the constructor inverts
  // ---------------------------------------------------------------------------

  /** The parts of an SMS-DELIVER PDU: two-character octets, digit strings, the timestamp and the user data. */
  datatype Deliver = Deliver(
    smscType: string, smsc: string, firstOctet: string, senderType: string, sender: string,
    pid: string, dcs: nat, timestamp: string, udl: nat, userData: seq<Byte>)

  /** Digit strings never contain the pad digit 'F'. */
  predicate NoPad(d: string) {
    forall i :: 0 <= i < |d| ==> d[i] != 'F'
  }

  /** The octets carried verbatim are two characters each and the timestamp is seven octets. */
  predicate Shaped(d: Deliver) {
    && |d.smscType| == 2 && |d.firstOctet| == 2 && |d.senderType| == 2 && |d.pid| == 2
    && |d.timestamp| == 14
  }

  /** The parts an encoder can write and the constructor reads back. */
  predicate ValidDeliver(d: Deliver) {
    && Shaped(d)
    && NoPad(d.smsc) && NoPad(d.sender)
    && |d.smsc| <= 500 && |d.sender| < 256
    && d.dcs < 256 && d.udl < 256
    && (CharacterSet(d.dcs) == 0x00 ==> SeptetsInRange(d.userData, d.udl))
  }

  /** An octet in upper-case hexadecimal (values above 255 do not fit and are cut to 8 bits). */
  function LengthHex(n: nat): (pair: string)
    ensures |pair| == 2 && IsHex(pair) && ChunkValue(pair) == n % 256
  {
    [HexDigit(n % 256 / 16), HexDigit(n % 16)]
  }

  /** Octets of SMSC information: none without a number, else the type byte and the semi-octets. */
  function SmscOctets(smsc: string): nat {
    if smsc == [] then 0 else |EncodeSemiOctet(smsc)| / 2 + 1
  }

  function SmscBlock(d: Deliver): string {
    if d.smsc == [] then LengthHex(0)
    else LengthHex(SmscOctets(d.smsc)) + d.smscType + EncodeSemiOctet(d.smsc)
  }

  // The encoded PDU from each field to the end, one function per field.

  function UdlTail(d: Deliver): string {
    LengthHex(d.udl) + ToHex(d.userData)
  }

  function TimestampTail(d: Deliver): string {
    SwapPairs(d.timestamp) + UdlTail(d)
  }

  function DcsTail(d: Deliver): string {
    LengthHex(d.dcs) + TimestampTail(d)
  }

  function PidTail(d: Deliver): string {
    d.pid + DcsTail(d)
  }

  function SenderTail(d: Deliver): string {
    EncodeSemiOctet(d.sender) + PidTail(d)
  }

  function SenderTypeTail(d: Deliver): string {
    d.senderType + SenderTail(d)
  }

  function SenderLengthTail(d: Deliver): string {
    LengthHex(|d.sender|) + SenderTypeTail(d)
  }

  function FirstOctetTail(d: Deliver): string {
    d.firstOctet + SenderLengthTail(d)
  }

  /** The SMS-DELIVER PDU with the given parts, field after field in the order the constructor reads them. */
  function EncodePdu(d: Deliver): string {
    SmscBlock(d) + FirstOctetTail(d)
  }

  /** An octet written by LengthHex at position i reads back as its value. */
  lemma LengthOctet(s: string, i: nat, n: nat)
    requires n < 256 && i + 2 <= |s| && s[i .. i + 2] == LengthHex(n)
    ensures HexPairAt(s, i) && OctetAt(s, i) == n
  {
    assert s[i] == s[i .. i + 2][0] && s[i + 1] == s[i .. i + 2][1];
    HexByteChunk(s, i);
  }

  /** The SMSC block: its length octet, then (for a number) the type byte and the semi-octets. */
  lemma SmscBlockShape(d: Deliver)
    requires |d.smscType| == 2 && |d.smsc| <= 500
    ensures SmscOctets(d.smsc) < 256
    ensures |SmscBlock(d)| == 2 + 2 * SmscOctets(d.smsc)
    ensures SmscBlock(d)[0 .. 2] == LengthHex(SmscOctets(d.smsc))
    ensures d.smsc != [] ==> SmscBlock(d)[4..] == EncodeSemiOctet(d.smsc)
  {
    if d.smsc != [] {
      var b := SmscBlock(d);
      Split(b, 0, LengthHex(SmscOctets(d.smsc)), d.smscType + EncodeSemiOctet(d.smsc));
      Split(b, 2, d.smscType, EncodeSemiOctet(d.smsc));
    }
  }

  /** The SMSC block at the front of an encoded PDU, followed by the rest from the first octet on. */
  lemma SmscParts(d: Deliver, pdu: string)
    requires |d.smscType| == 2 && |d.smsc| <= 500 && pdu == SmscBlock(d) + FirstOctetTail(d)
    ensures 2 + 2 * SmscOctets(d.smsc) <= |pdu|
    ensures pdu[0 .. 2] == LengthHex(SmscOctets(d.smsc))
    ensures d.smsc != [] ==>
      2 <= SmscOctets(d.smsc) && pdu[4 .. 2 + 2 * SmscOctets(d.smsc)] == EncodeSemiOctet(d.smsc)
    ensures pdu[2 + 2 * SmscOctets(d.smsc) ..] == FirstOctetTail(d)
  {
    var n := SmscOctets(d.smsc);
    SmscBlockShape(d);
    Split(pdu, 0, SmscBlock(d), FirstOctetTail(d));
    assert pdu[0 .. 2] == SmscBlock(d)[0 .. 2];
    if d.smsc != [] {
      assert pdu[4 .. 2 + 2 * n] == SmscBlock(d)[4..];
    }
  }

  /** The first octet, the sender length octet and the type-of-address after an SMSC block of n octets. */
  lemma HeaderTails(d: Deliver, pdu: string, n: nat)
    requires Shaped(d)
    requires 2 + 2 * n <= |pdu| && pdu[2 + 2 * n ..] == FirstOctetTail(d)
    ensures SenderPos(n) <= |pdu|
    ensures pdu[SenderLengthPos(n) .. SenderLengthPos(n) + 2] == LengthHex(|d.sender|)
    ensures pdu[SenderPos(n) ..] == SenderTail(d)
  {
    Split(pdu, 2 + 2 * n, d.firstOctet, SenderLengthTail(d));
    SenderLengthParts(d, pdu, SenderLengthPos(n));
    Split(pdu, SenderLengthPos(n) + 2, d.senderType, SenderTail(d));
  }

  lemma SenderLengthParts(d: Deliver, pdu: string, at: nat)
    requires at <= |pdu| && pdu[at ..] == SenderLengthTail(d)
    ensures at + 2 <= |pdu| && pdu[at .. at + 2] == LengthHex(|d.sender|)
    ensures pdu[at + 2 ..] == SenderTypeTail(d)
  {
    Split(pdu, at, LengthHex(|d.sender|), SenderTypeTail(d));
  }

  /** The sender digits, the coding octets, the timestamp and the user data, from the sender digits on. */
  lemma BodyTails(d: Deliver, pdu: string, n: nat)
    requires Shaped(d) && SenderPos(n) <= |pdu| && pdu[SenderPos(n) ..] == SenderTail(d)
    ensures UserDataPos(n, |d.sender|) <= |pdu|
    ensures pdu[SenderPos(n) .. SenderPos(n) + SenderField(|d.sender|)] == EncodeSemiOctet(d.sender)
    ensures pdu[DcsPos(n, |d.sender|) .. DcsPos(n, |d.sender|) + 2] == LengthHex(d.dcs)
    ensures pdu[TimestampPos(n, |d.sender|) .. TimestampPos(n, |d.sender|) + 14] == SwapPairs(d.timestamp)
    ensures pdu[UdlPos(n, |d.sender|) .. UdlPos(n, |d.sender|) + 2] == LengthHex(d.udl)
    ensures pdu[UserDataPos(n, |d.sender|) ..] == ToHex(d.userData)
  {
    var len := |d.sender|;
    SenderParts(d, pdu, SenderPos(n));
    Split(pdu, DcsPos(n, len) - 2, d.pid, DcsTail(d));
    DcsParts(d, pdu, DcsPos(n, len));
    TimestampParts(d, pdu, TimestampPos(n, len));
    UdlParts(d, pdu, UdlPos(n, len));
  }

  lemma SenderParts(d: Deliver, pdu: string, at: nat)
    requires at <= |pdu| && pdu[at ..] == SenderTail(d)
    ensures at + SenderField(|d.sender|) <= |pdu|
    ensures pdu[at .. at + SenderField(|d.sender|)] == EncodeSemiOctet(d.sender)
    ensures pdu[at + SenderField(|d.sender|) ..] == PidTail(d)
  {
    assert |EncodeSemiOctet(d.sender)| == SenderField(|d.sender|);
    Split(pdu, at, EncodeSemiOctet(d.sender), PidTail(d));
  }

  lemma DcsParts(d: Deliver, pdu: string, at: nat)
    requires at <= |pdu| && pdu[at ..] == DcsTail(d)
    ensures at + 2 <= |pdu| && pdu[at .. at + 2] == LengthHex(d.dcs)
    ensures pdu[at + 2 ..] == TimestampTail(d)
  {
    Split(pdu, at, LengthHex(d.dcs), TimestampTail(d));
  }

  lemma TimestampParts(d: Deliver, pdu: string, at: nat)
    requires |d.timestamp| == 14 && at <= |pdu| && pdu[at ..] == TimestampTail(d)
    ensures at + 14 <= |pdu| && pdu[at .. at + 14] == SwapPairs(d.timestamp)
    ensures pdu[at + 14 ..] == UdlTail(d)
  {
    TimestampIsPairSwap(d.timestamp, 0);
    Split(pdu, at, SwapPairs(d.timestamp), UdlTail(d));
  }

  lemma UdlParts(d: Deliver, pdu: string, at: nat)
    requires at <= |pdu| && pdu[at ..] == UdlTail(d)
    ensures at + 2 <= |pdu| && pdu[at .. at + 2] == LengthHex(d.udl)
    ensures pdu[at + 2 ..] == ToHex(d.userData)
  {
    Split(pdu, at, LengthHex(d.udl), ToHex(d.userData));
  }

  /** Where every field of an encoded PDU sits, for SMSC length n and sender length len. */
  predicate Encodes(pdu: string, d: Deliver, n: nat, len: nat) {
    && UserDataPos(n, len) <= |pdu|
    && pdu[0 .. 2] == LengthHex(n)
    && (d.smsc != [] ==> 2 <= n && pdu[4 .. 2 + 2 * n] == EncodeSemiOctet(d.smsc))
    && pdu[SenderLengthPos(n) .. SenderLengthPos(n) + 2] == LengthHex(len)
    && pdu[SenderPos(n) .. SenderPos(n) + SenderField(len)] == EncodeSemiOctet(d.sender)
    && pdu[DcsPos(n, len) .. DcsPos(n, len) + 2] == LengthHex(d.dcs)
    && pdu[TimestampPos(n, len) .. TimestampPos(n, len) + 14] == SwapPairs(d.timestamp)
    && pdu[UdlPos(n, len) .. UdlPos(n, len) + 2] == LengthHex(d.udl)
    && pdu[UserDataPos(n, len) ..] == ToHex(d.userData)
  }

  /** The fields after an SMSC block of n octets sit where Encodes says. */
  lemma TailsEncode(d: Deliver, pdu: string, n: nat)
    requires Shaped(d) && 2 + 2 * n <= |pdu|
    requires pdu[0 .. 2] == LengthHex(n)
    requires d.smsc != [] ==> 2 <= n && pdu[4 .. 2 + 2 * n] == EncodeSemiOctet(d.smsc)
    requires pdu[2 + 2 * n ..] == FirstOctetTail(d)
    ensures Encodes(pdu, d, n, |d.sender|)
  {
    HeaderTails(d, pdu, n);
    BodyTails(d, pdu, n);
  }

  /** The encoder puts every field where Encodes says, with the record's SMSC octets and sender digits. */
  lemma EncodePduEncodes(d: Deliver)
    requires Shaped(d) && |d.smsc| <= 500
    ensures Encodes(EncodePdu(d), d, SmscOctets(d.smsc), |d.sender|)
  {
    SmscParts(d, EncodePdu(d));
    TailsEncode(d, EncodePdu(d), SmscOctets(d.smsc));
  }

  lemma SmscOctetsBound(smsc: string)
    requires |smsc| <= 500
    ensures SmscOctets(smsc) < 256
  {
  }

  /** Length octets n and len written where the constructor reads them are the PDU's two lengths. */
  lemma HeaderLayout(pdu: string, n: nat, len: nat)
    requires n < 256 && len < 256 && SenderLengthPos(n) + 2 <= |pdu|
    requires pdu[0 .. 2] == LengthHex(n) && pdu[SenderLengthPos(n) .. SenderLengthPos(n) + 2] == LengthHex(len)
    ensures LengthsReadable(pdu) && SmscLength(pdu) == n && SenderLength(pdu) == len
  {
    LengthOctet(pdu, 0, n);
    assert SmscLength(pdu) == n;
    LengthOctet(pdu, SenderLengthPos(n), len);
  }

  /** Coding octets and hexadecimal user data where the layout puts them make the PDU well formed, with those fields. */
  lemma ReadsCoding(pdu: string, n: nat, len: nat, dcs: nat, udl: nat, ud: seq<Byte>)
    requires UserDataPos(n, len) <= |pdu| && dcs < 256 && udl < 256
    requires pdu[DcsPos(n, len) .. DcsPos(n, len) + 2] == LengthHex(dcs)
    requires pdu[UdlPos(n, len) .. UdlPos(n, len) + 2] == LengthHex(udl)
    requires pdu[UserDataPos(n, len) ..] == ToHex(ud)
    requires CharacterSet(dcs) == 0x00 ==> SeptetsInRange(ud, udl)
    ensures WellFormedAt(pdu, n, len)
    ensures Dcs(pdu, n, len) == dcs && Udl(pdu, n, len) == udl && UserData(pdu, n, len) == ud
  {
    LengthOctet(pdu, DcsPos(n, len), dcs);
    LengthOctet(pdu, UdlPos(n, len), udl);
    HexRoundTrip(ud);
  }

  /** The semi-octets of a number after the SMSC type byte read back as the number. */
  lemma ReadsSmsc(pdu: string, n: nat, smsc: string)
    requires NoPad(smsc) && n == SmscOctets(smsc) && 2 + 2 * n <= |pdu|
    requires smsc != [] ==> pdu[4 .. 2 + 2 * n] == EncodeSemiOctet(smsc)
    ensures SmscDigits(pdu, n) == smsc
  {
    if smsc != [] {
      assert (n - 1) * 2 == |EncodeSemiOctet(smsc)|;
      PaddedRoundTrip(smsc);
    }
  }

  /** Reading as many digits as the semi-octets have characters (the SMSC case) drops only the pad. */
  lemma PaddedRoundTrip(digits: string)
    requires NoPad(digits)
    ensures SemiOctet(EncodeSemiOctet(digits), |EncodeSemiOctet(digits)|) == digits
  {
    SemiOctetRoundTrip(digits);
  }

  /** The semi-octets at the sender position read back as the sender number. */
  lemma ReadsSender(pdu: string, n: nat, sender: string)
    requires NoPad(sender) && SenderPos(n) + SenderField(|sender|) <= |pdu|
    requires pdu[SenderPos(n) .. SenderPos(n) + SenderField(|sender|)] == EncodeSemiOctet(sender)
    ensures SenderDigits(pdu, n, |sender|) == sender
  {
    SemiOctetRoundTrip(sender);
  }

  /** The swapped pairs at the timestamp position read back as the timestamp. */
  lemma ReadsTimestamp(pdu: string, n: nat, len: nat, ts: string)
    requires |ts| == 14 && TimestampPos(n, len) + 14 <= |pdu|
    requires pdu[TimestampPos(n, len) .. TimestampPos(n, len) + 14] == SwapPairs(ts)
    ensures TimestampDigits(pdu, n, len) == ts
  {
    SwapPairsInvolution(ts);
  }

  /** The length bytes of an encoded PDU are the record's SMSC octets and sender digits. */
  lemma EncodedLengths(pdu: string, d: Deliver)
    requires ValidDeliver(d) && Encodes(pdu, d, SmscOctets(d.smsc), |d.sender|)
    ensures LengthsReadable(pdu)
    ensures SmscLength(pdu) == SmscOctets(d.smsc) && SenderLength(pdu) == |d.sender|
  {
    SmscOctetsBound(d.smsc);
    HeaderLayout(pdu, SmscOctets(d.smsc), |d.sender|);
  }

  /** The coding octets and user data of an encoded PDU are the record's, and the PDU is well formed there. */
  lemma EncodedCoding(pdu: string, d: Deliver)
    requires ValidDeliver(d) && Encodes(pdu, d, SmscOctets(d.smsc), |d.sender|)
    ensures WellFormedAt(pdu, SmscOctets(d.smsc), |d.sender|)
    ensures Dcs(pdu, SmscOctets(d.smsc), |d.sender|) == d.dcs
    ensures Udl(pdu, SmscOctets(d.smsc), |d.sender|) == d.udl
    ensures UserData(pdu, SmscOctets(d.smsc), |d.sender|) == d.userData
  {
    ReadsCoding(pdu, SmscOctets(d.smsc), |d.sender|, d.dcs, d.udl, d.userData);
  }

  /** The numbers and the timestamp of an encoded PDU read back as the record's. */
  lemma EncodedText(pdu: string, d: Deliver)
    requires ValidDeliver(d) && Encodes(pdu, d, SmscOctets(d.smsc), |d.sender|)
    ensures SmscDigits(pdu, SmscOctets(d.smsc)) == d.smsc
    ensures SenderDigits(pdu, SmscOctets(d.smsc), |d.sender|) == d.sender
    ensures TimestampDigits(pdu, SmscOctets(d.smsc), |d.sender|) == d.timestamp
  {
    ReadsSmsc(pdu, SmscOctets(d.smsc), d.smsc);
    ReadsSender(pdu, SmscOctets(d.smsc), d.sender);
    ReadsTimestamp(pdu, SmscOctets(d.smsc), |d.sender|, d.timestamp);
  }

  /**
    The constructor's result on a PDU whose length bytes announce n and len
    and whose fields there are the record's.
   */
  lemma DecodeFields(pdu: string, n: nat, len: nat, d: Deliver)
    requires LengthsReadable(pdu) && SmscLength(pdu) == n && SenderLength(pdu) == len
    requires WellFormedAt(pdu, n, len)
    requires Dcs(pdu, n, len) == d.dcs && Udl(pdu, n, len) == d.udl && UserData(pdu, n, len) == d.userData
    requires SmscDigits(pdu, n) == d.smsc && SenderDigits(pdu, n, len) == d.sender
    requires TimestampDigits(pdu, n, len) == d.timestamp
    ensures WellFormedPdu(pdu)
    ensures CharacterSet(d.dcs) == 0x08 ==>
      DecodePdu(pdu) == Success(Sms(d.smsc, d.sender, d.timestamp, Ucs2(d.userData)))
    ensures CharacterSet(d.dcs) == 0x00 ==>
      DecodePdu(pdu) == Success(Sms(d.smsc, d.sender, d.timestamp, Gsm7(d.userData, d.udl)))
    ensures CharacterSet(d.dcs) != 0x08 && CharacterSet(d.dcs) != 0x00 ==>
      DecodePdu(pdu) == Failure(SmsParseError(pdu, d.dcs))
  {
  }

  /**
    The constructor inverts the encoder: an encoded PDU yields the encoder's
    numbers and timestamp, and content decoded from its user data (UCS2 over
    all of it, or UDL septets of 7-bit text), or the parse error naming that
    PDU when the coding scheme is neither.
   */
  lemma DeliverRoundTrip(d: Deliver)
    requires ValidDeliver(d)
    ensures WellFormedPdu(EncodePdu(d))
    ensures CharacterSet(d.dcs) == 0x08 ==>
      DecodePdu(EncodePdu(d)) == Success(Sms(d.smsc, d.sender, d.timestamp, Ucs2(d.userData)))
    ensures CharacterSet(d.dcs) == 0x00 ==>
      DecodePdu(EncodePdu(d)) == Success(Sms(d.smsc, d.sender, d.timestamp, Gsm7(d.userData, d.udl)))
    ensures CharacterSet(d.dcs) != 0x08 && CharacterSet(d.dcs) != 0x00 ==>
      DecodePdu(EncodePdu(d)) == Failure(SmsParseError(EncodePdu(d), d.dcs))
  {
    EncodePduEncodes(d);
    EncodedLengths(EncodePdu(d), d);
    EncodedCoding(EncodePdu(d), d);
    EncodedText(EncodePdu(d), d);
    DecodeFields(EncodePdu(d), SmscOctets(d.smsc), |d.sender|, d);
  }
}
