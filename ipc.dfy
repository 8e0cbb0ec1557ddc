/**
  The messages the front end and the service exchange over the command pipe
  (utils/include/serial_interface.hpp, utils/src/serial_interface.cpp): a
  Command carrying an AT command and perhaps the response it expects, or a
  Prompt carrying text. A message is written as its decimal type tag followed
  by its text form, and parsed back from a character stream.
 */
module Ipc {
  import opened Wrappers
  import opened Sequences

  /** Utils::Interface::Command: the AT command and the response expected for it, if any. */
  datatype Command = Command(atCommand: string, expected: Option<string>)

  /** The two concrete kinds of Utils::Interface::AMessage. */
  datatype Message = CommandMessage(command: Command) | PromptMessage(text: string)

  /** Utils::Error::UnexpectedATResponse: the command, the response it expected and the one it got. */
  datatype UnexpectedATResponse = UnexpectedATResponse(atCommand: string, expected: string, respond: string)

  /** Utils::Error::ParserError. */
  datatype ParserError = ParserError

  /** A parsed message and the characters the stream still holds after it. */
  datatype Parsed = Parsed(message: Message, rest: string)

  // ---------------------------------------------------------------------------
  // Text forms and serialisation (serial_interface.cpp:9-39, 65-73)
  // ---------------------------------------------------------------------------

  /** The value of enum class Type for each kind: COMMAND = 1, PROMPT = 2 (UNKNOWN = 0 has no message). */
  function TypeValue(m: Message): (t: nat)
    ensures t == 1 || t == 2
  {
    match m
    case CommandMessage(_) => 1
    case PromptMessage(_) => 2
  }

  /** to_string(): the command followed by ';' and the expectation when there is one; a prompt's text verbatim. */
  function ToString(m: Message): string {
    match m
    case CommandMessage(c) =>
      if c.expected.Some? then c.atCommand + ";" + c.expected.value else c.atCommand
    case PromptMessage(text) => text
  }

  /** message(): a command's AT command alone, or a prompt's text. */
  function MessageText(m: Message): string {
    match m
    case CommandMessage(c) => c.atCommand
    case PromptMessage(text) => text
  }

  /** The one decimal digit of a small unsigned value, as operator<< writes it. */
  function DigitChar(d: nat): char
    requires d < 10
  {
    ('0' as int + d) as char
  }

  /**
    operator<<: "0" for an absent message, otherwise the type tag immediately
    followed by to_string(), with no separator and no trailing newline.
   */
  function Serialise(m: Option<Message>): string {
    match m
    case None => "0"
    case Some(msg) => [DigitChar(TypeValue(msg))] + ToString(msg)
  }

  /**
    A transmittable message is written on one line: operator<< adds no newline,
    so the reader's line ends where the writer's next message starts.
   */
  lemma SerialisedOnOneLine(m: Message)
    requires Transmittable(m)
    ensures |Serialise(Some(m))| >= 1
    ensures forall k :: 0 <= k < |Serialise(Some(m))| ==> Serialise(Some(m))[k] != '\n'
  {
    var s := Serialise(Some(m));
    assert s == [DigitChar(TypeValue(m))] + ToString(m);
    forall k | 0 <= k < |s|
      ensures s[k] != '\n'
    {
      if k > 0 {
        assert s[k] == ToString(m)[k - 1];
        match m
        case CommandMessage(c) =>
          if c.expected.Some? {
            var at := c.atCommand;
            assert ToString(m) == at + (";" + c.expected.value);
            if k - 1 >= |at| + 1 {
              assert ToString(m)[k - 1] == c.expected.value[k - 1 - |at| - 1];
            }
          }
        case PromptMessage(_) =>
      }
    }
  }

  /**
    message() is to_string() without the expectation: the two agree on prompts,
    and a command's text form is its message, then ';' and the expectation.
   */
  lemma MessageIsTextWithoutExpectation(m: Message)
    ensures m.PromptMessage? ==> ToString(m) == MessageText(m)
    ensures m.CommandMessage? && m.command.expected.None? ==> ToString(m) == MessageText(m)
    ensures m.CommandMessage? && m.command.expected.Some? ==>
      ToString(m) == MessageText(m) + ";" + m.command.expected.value
  {
  }

  // ---------------------------------------------------------------------------
  // Command::verify (serial_interface.cpp:41-59)
  // ---------------------------------------------------------------------------

  /**
    Command::verify: the UnexpectedATResponse it throws, or None when it
    returns normally. It returns normally exactly when there is no expectation
    or the response equals it.
   */
  function Verify(c: Command, respond: string): (r: Option<UnexpectedATResponse>)
    ensures r.None? <==> c.expected.None? || respond == c.expected.value
    ensures r.Some? ==> r.value == UnexpectedATResponse(c.atCommand, c.expected.value, respond)
  {
    if c.expected.None? then None
    else if respond != c.expected.value then Some(UnexpectedATResponse(c.atCommand, c.expected.value, respond))
    else None
  }

  // ---------------------------------------------------------------------------
  // Reading the type tag: `is >> type` for an unsigned int
  // ---------------------------------------------------------------------------

  /** The characters std::isspace accepts in the "C" locale. */
  predicate IsSpace(c: char) {
    c == ' ' || c == '\t' || c == '\n' || c as int == 0x0B || c as int == 0x0C || c == '\r'
  }

  predicate IsDigit(c: char) {
    '0' <= c <= '9'
  }

  /** The value of a decimal digit; 0 for any other character. */
  function DigitOf(c: char): (v: nat)
    ensures v < 10
  {
    if IsDigit(c) then (c as int - '0' as int) as nat else 0
  }

  /** The largest unsigned int. */
  const UintMax: nat := 0xFFFF_FFFF

  /** The first position at or after i that does not hold white space. */
  function SkipSpace(s: string, i: nat): (j: nat)
    requires i <= |s|
    ensures i <= j <= |s|
    ensures forall k :: i <= k < j ==> IsSpace(s[k])
    ensures j < |s| ==> !IsSpace(s[j])
    decreases |s| - i
  {
    if i < |s| && IsSpace(s[i]) then SkipSpace(s, i + 1) else i
  }

  /** The end of the run of decimal digits that starts at i. */
  function DigitEnd(s: string, i: nat): (j: nat)
    requires i <= |s|
    ensures i <= j <= |s|
    ensures forall k :: i <= k < j ==> IsDigit(s[k])
    ensures j < |s| ==> !IsDigit(s[j])
    decreases |s| - i
  {
    if i < |s| && IsDigit(s[i]) then DigitEnd(s, i + 1) else i
  }

  /** The value of a string of decimal digits, most significant first. */
  function DecimalValue(d: string): nat {
    if d == [] then 0 else DecimalValue(d[..|d| - 1]) * 10 + DigitOf(d[|d| - 1])
  }

  /** An unsigned number read from a stream and the position after its last digit. */
  datatype Number = Number(value: nat, next: nat)

  /**
    Extraction of an unsigned int: white space is skipped, one '+' or '-' is
    accepted, at least one digit must follow, a magnitude above UintMax fails,
    and a '-' negates the magnitude modulo 2^32. None is the failed stream.
   */
  function ReadUnsigned(s: string): Option<Number> {
    var i := SkipSpace(s, 0);
    var negative := i < |s| && s[i] == '-';
    var start := if i < |s| && (s[i] == '+' || s[i] == '-') then i + 1 else i;
    var end := DigitEnd(s, start);
    if end == start then None
    else
      var magnitude := DecimalValue(s[start .. end]);
      if magnitude > UintMax then None
      else Some(Number(if negative then (0x1_0000_0000 - magnitude) % 0x1_0000_0000 else magnitude, end))
  }

  /** The stream extraction of ReadUnsigned, character by character. */
  method ExtractUnsigned(s: string) returns (n: Option<Number>)
    ensures n == ReadUnsigned(s)
  {
    var i := SkipWhitespace(s);
    var negative := false;
    if i < |s| && (s[i] == '+' || s[i] == '-') {
      negative := s[i] == '-';
      i := i + 1;
    }
    var start := i;
    var magnitude;
    i, magnitude := ReadDigits(s, start);
    if i == start || magnitude > UintMax {
      return None;
    }
    if negative {
      magnitude := (0x1_0000_0000 - magnitude) % 0x1_0000_0000;
    }
    n := Some(Number(magnitude, i));
  }

  /** The white-space skip of the extraction. */
  method SkipWhitespace(s: string) returns (i: nat)
    ensures i == SkipSpace(s, 0)
  {
    i := 0;
    while i < |s| && IsSpace(s[i])
      invariant i <= |s|
      invariant SkipSpace(s, i) == SkipSpace(s, 0)
    {
      i := i + 1;
    }
  }

  /** The digits of the extraction, accumulated most significant first. */
  method ReadDigits(s: string, start: nat) returns (i: nat, magnitude: nat)
    requires start <= |s|
    ensures i == DigitEnd(s, start) && magnitude == DecimalValue(s[start .. i])
  {
    i := start;
    magnitude := 0;
    while i < |s| && IsDigit(s[i])
      invariant start <= i <= |s|
      invariant DigitEnd(s, i) == DigitEnd(s, start)
      invariant magnitude == DecimalValue(s[start .. i])
    {
      DecimalSlice(s, start, i);
      magnitude := magnitude * 10 + DigitOf(s[i]);
      i := i + 1;
    }
  }

  /** Appending a digit multiplies the value by ten and adds the digit. */
  lemma DecimalStep(d: string, c: char)
    ensures DecimalValue(d + [c]) == DecimalValue(d) * 10 + DigitOf(c)
  {
    assert (d + [c])[.. |d|] == d;
  }

  /** One more digit of a slice read, as the loop of the extraction reads it. */
  lemma DecimalSlice(s: string, start: nat, i: nat)
    requires start <= i < |s|
    ensures DecimalValue(s[start .. i + 1]) == DecimalValue(s[start .. i]) * 10 + DigitOf(s[i])
  {
    DecimalStep(s[start .. i], s[i]);
    assert s[start .. i] + [s[i]] == s[start .. i + 1];
  }

  /**
    A tag digit that is not followed by another digit reads as its own value.
    This is why a text form that begins with a digit does not survive the trip.
   */
  lemma ReadsTag(d: nat, t: string)
    requires d < 10 && (t == [] || !IsDigit(t[0]))
    ensures ReadUnsigned([DigitChar(d)] + t) == Some(Number(d, 1))
  {
    var s := [DigitChar(d)] + t;
    assert SkipSpace(s, 0) == 0;
    assert DigitEnd(s, 1) == 1;
    assert DigitEnd(s, 0) == 1;
    assert s[0 .. 1] == [DigitChar(d)];
    assert DecimalValue(s[0 .. 1]) == DecimalValue([]) * 10 + d;
  }

  // ---------------------------------------------------------------------------
  // parse (serial_interface.cpp:75-122)
  // ---------------------------------------------------------------------------

  /**
    The first position at or after i holding '\n', or ';' as well when
    semicolon holds; |s| when there is none.
   */
  function FieldEnd(s: string, i: nat, semicolon: bool): (j: nat)
    requires i <= |s|
    ensures i <= j <= |s|
    ensures j < |s| ==> s[j] == '\n' || (semicolon && s[j] == ';')
    decreases |s| - i
  {
    if i < |s| && s[i] != '\n' && !(semicolon && s[i] == ';') then FieldEnd(s, i + 1, semicolon) else i
  }

  /** The position after a field that ends at j: the terminator, if any, is consumed. */
  function After(s: string, j: nat): nat
    requires j <= |s|
  {
    if j < |s| then j + 1 else j
  }

  /**
    The Command branch from position i: the command runs to the first ';' or
    '\n'; when the scan stopped at ';' the expectation runs to the next '\n'
    and may contain ';'. At the end of the stream with nothing read, the
    source inspects an uninitialised character; the model reads it as no
    expectation.
   */
  function CommandAt(s: string, i: nat): Parsed
    requires i <= |s|
  {
    var j := FieldEnd(s, i, true);
    if j < |s| && s[j] == ';' then
      var k := FieldEnd(s, j + 1, false);
      Parsed(CommandMessage(Command(s[i .. j], Some(s[j + 1 .. k]))), s[After(s, k) ..])
    else
      Parsed(CommandMessage(Command(s[i .. j], None)), s[After(s, j) ..])
  }

  /** The Prompt branch from position i: std::getline, the rest of the line without its '\n'. */
  function PromptAt(s: string, i: nat): Parsed
    requires i <= |s|
  {
    var k := FieldEnd(s, i, false);
    Parsed(PromptMessage(s[i .. k]), s[After(s, k) ..])
  }

  /** What parse returns, or the ParserError it throws: a tag that fails to read, 0, or neither 1 nor 2. */
  function ParseSpec(s: string): Result<Parsed, ParserError> {
    match ReadUnsigned(s)
    case None => Failure(ParserError)
    case Some(Number(tag, i)) =>
      if tag == 0 then Failure(ParserError)
      else if tag == 1 then Success(CommandAt(s, i))
      else if tag == 2 then Success(PromptAt(s, i))
      else Failure(ParserError)
  }

  /** parse(is), with the stream as the characters it holds. */
  method Parse(s: string) returns (r: Result<Parsed, ParserError>)
    ensures r == ParseSpec(s)
  {
    var number := ExtractUnsigned(s);
    if number.None? || number.value.value == 0 {
      return Failure(ParserError);
    }
    var tag, i := number.value.value, number.value.next;
    if tag == 1 {
      var message, rest := ParseCommand(s, i);
      r := Success(Parsed(message, rest));
    } else if tag == 2 {
      var content, j := ReadLine(s, i);
      r := Success(Parsed(PromptMessage(content), s[j ..]));
    } else {
      r := Failure(ParserError);
    }
  }

  /** The Command branch of parse: two is.get loops. */
  method ParseCommand(s: string, i: nat) returns (message: Message, rest: string)
    requires i <= |s|
    ensures Parsed(message, rest) == CommandAt(s, i)
  {
    var content0 := "";
    var j := i;
    // ch is uninitialised in the source; a NUL here stands for "not ';'"
    var ch: char := '\0';
    while j < |s|
      invariant i <= j <= |s|
      invariant content0 == s[i .. j]
      invariant FieldEnd(s, j, true) == FieldEnd(s, i, true)
      invariant ch != ';'
    {
      ch := s[j];
      j := j + 1;
      if ch == ';' || ch == '\n' {
        break;
      }
      content0 := content0 + [ch];
    }
    if ch == ';' {
      var content1, k := ReadLine(s, j);
      return CommandMessage(Command(content0, Some(content1))), s[k ..];
    }
    return CommandMessage(Command(content0, None)), s[j ..];
  }

  /** std::getline and the second is.get loop: characters up to '\n', which is consumed and dropped. */
  method ReadLine(s: string, i: nat) returns (line: string, j: nat)
    requires i <= |s|
    ensures line == s[i .. FieldEnd(s, i, false)] && j == After(s, FieldEnd(s, i, false))
  {
    line := "";
    j := i;
    while j < |s|
      invariant i <= j <= |s|
      invariant line == s[i .. j]
      invariant FieldEnd(s, j, false) == FieldEnd(s, i, false)
    {
      var ch := s[j];
      j := j + 1;
      if ch == '\n' {
        return;
      }
      line := line + [ch];
    }
  }

  // ---------------------------------------------------------------------------
  // Round trip
  // ---------------------------------------------------------------------------

  /**
    The messages that survive the pipe: a command without ';' or '\n', an
    expectation without '\n', a prompt without '\n', and a text form that
    does not begin with a digit (the tag extraction would absorb it).
   */
  predicate Transmittable(m: Message) {
    && (ToString(m) == [] || !IsDigit(ToString(m)[0]))
    && match m
       case CommandMessage(c) =>
         && (forall k :: 0 <= k < |c.atCommand| ==> c.atCommand[k] != ';' && c.atCommand[k] != '\n')
         && (c.expected.Some? ==> forall k :: 0 <= k < |c.expected.value| ==> c.expected.value[k] != '\n')
       case PromptMessage(text) =>
         forall k :: 0 <= k < |text| ==> text[k] != '\n'
  }

  /** A field without terminators, followed by the end of the stream or a terminator, ends there. */
  lemma FieldEndOf(s: string, i: nat, field: string, t: string, semicolon: bool)
    requires i <= |s| && s[i ..] == field + t
    requires forall k :: 0 <= k < |field| ==> field[k] != '\n' && (semicolon ==> field[k] != ';')
    requires t == [] || t[0] == '\n' || (semicolon && t[0] == ';')
    ensures FieldEnd(s, i, semicolon) == i + |field|
    decreases |field|
  {
    assert s[i ..][.. |field|] == field;
    if field != [] {
      assert s[i] == field[0];
      assert s[i + 1 ..] == field[1..] + t;
      FieldEndOf(s, i + 1, field[1..], t, semicolon);
    } else if t != [] {
      assert s[i] == t[0];
    }
  }

  /**
    parse inverts operator<<: a transmittable message written to the stream,
    followed by its end or by a newline and more, reads back as itself, and
    the stream is left after the newline. The one excluded case, a command
    with neither text nor expectation at the very end of the stream, is where
    the source reads an uninitialised character.
   */
  lemma RoundTrip(m: Message, t: string)
    requires Transmittable(m)
    requires t == [] || t[0] == '\n'
    requires m.CommandMessage? && m.command.atCommand == [] && m.command.expected.None? ==> t != []
    ensures ParseSpec(Serialise(Some(m)) + t) == Success(Parsed(m, if t == [] then [] else t[1..]))
  {
    match m
    case CommandMessage(c) =>
      if c.expected.Some? {
        CommandWithExpectationTrip(c.atCommand, c.expected.value, t);
      } else {
        CommandAloneTrip(c.atCommand, t);
      }
    case PromptMessage(text) =>
      PromptTrip(text, t);
  }

  lemma CommandWithExpectationTrip(at: string, e: string, t: string)
    requires Transmittable(CommandMessage(Command(at, Some(e))))
    requires t == [] || t[0] == '\n'
    ensures ParseSpec(Serialise(Some(CommandMessage(Command(at, Some(e))))) + t)
      == Success(Parsed(CommandMessage(Command(at, Some(e))), if t == [] then [] else t[1..]))
  {
    var s := Serialise(Some(CommandMessage(Command(at, Some(e))))) + t;
    assert s == [DigitChar(1)] + (at + (";" + (e + t)));
    CommandWithExpectation(s, at, e, t);
    WithTag(s, 1, at + (";" + (e + t)));
  }

  lemma CommandAloneTrip(at: string, t: string)
    requires Transmittable(CommandMessage(Command(at, None)))
    requires t == [] || t[0] == '\n'
    ensures ParseSpec(Serialise(Some(CommandMessage(Command(at, None)))) + t)
      == Success(Parsed(CommandMessage(Command(at, None)), if t == [] then [] else t[1..]))
  {
    var s := Serialise(Some(CommandMessage(Command(at, None)))) + t;
    assert s == [DigitChar(1)] + (at + t);
    CommandAlone(s, at, t);
    WithTag(s, 1, at + t);
  }

  lemma PromptTrip(text: string, t: string)
    requires Transmittable(PromptMessage(text))
    requires t == [] || t[0] == '\n'
    ensures ParseSpec(Serialise(Some(PromptMessage(text))) + t)
      == Success(Parsed(PromptMessage(text), if t == [] then [] else t[1..]))
  {
    var s := Serialise(Some(PromptMessage(text))) + t;
    assert s == [DigitChar(2)] + (text + t);
    PromptLine(s, text, t);
    WithTag(s, 2, text + t);
  }

  /** A stream that starts with the tag 1 or 2 is parsed from the character after it. */
  lemma WithTag(s: string, tag: nat, body: string)
    requires (tag == 1 || tag == 2) && s == [DigitChar(tag)] + body && (body == [] || !IsDigit(body[0]))
    ensures tag == 1 ==> ParseSpec(s) == Success(CommandAt(s, 1))
    ensures tag == 2 ==> ParseSpec(s) == Success(PromptAt(s, 1))
  {
    ReadsTag(tag, body);
  }

  /** After the tag, a command text, ';' and an expectation are read back. */
  lemma CommandWithExpectation(s: string, at: string, e: string, t: string)
    requires |s| >= 1 && s[1 ..] == at + (";" + (e + t))
    requires forall k :: 0 <= k < |at| ==> at[k] != ';' && at[k] != '\n'
    requires forall k :: 0 <= k < |e| ==> e[k] != '\n'
    requires t == [] || t[0] == '\n'
    ensures CommandAt(s, 1) == Parsed(CommandMessage(Command(at, Some(e))), if t == [] then [] else t[1..])
  {
    Field(s, 1, at, ";" + (e + t), true);
    ExpectationAfter(s, 1 + |at|, e, t);
  }

  /** From the ';' at position j: the expectation up to the end or the newline, and the stream after it. */
  lemma ExpectationAfter(s: string, j: nat, e: string, t: string)
    requires j <= |s| && s[j ..] == ";" + (e + t)
    requires forall k :: 0 <= k < |e| ==> e[k] != '\n'
    requires t == [] || t[0] == '\n'
    ensures j < |s| && s[j] == ';'
    ensures FieldEnd(s, j + 1, false) == j + 1 + |e| && s[j + 1 .. j + 1 + |e|] == e
    ensures s[After(s, j + 1 + |e|) ..] == if t == [] then [] else t[1..]
  {
    Semicolon(s, j, e + t);
    Field(s, j + 1, e, t, false);
    RestAfter(s, j + 1 + |e|, t);
  }

  /** A field without terminators, followed by the end of the stream or a terminator, ends there. */
  lemma Field(s: string, i: nat, field: string, t: string, semicolon: bool)
    requires i <= |s| && s[i ..] == field + t
    requires forall k :: 0 <= k < |field| ==> field[k] != '\n' && (semicolon ==> field[k] != ';')
    requires t == [] || t[0] == '\n' || (semicolon && t[0] == ';')
    ensures FieldEnd(s, i, semicolon) == i + |field|
    ensures s[i .. i + |field|] == field && s[i + |field| ..] == t
  {
    FieldEndOf(s, i, field, t, semicolon);
    Split(s, i, field, t);
  }

  /** A ';' at position j, and what follows it. */
  lemma Semicolon(s: string, j: nat, t: string)
    requires j <= |s| && s[j ..] == ";" + t
    ensures j < |s| && s[j] == ';' && s[j + 1 ..] == t
  {
    assert s[j] == s[j ..][0];
    assert s[j + 1 ..] == s[j ..][1 ..];
  }

  /** After the tag, a command text alone is read back with no expectation. */
  lemma CommandAlone(s: string, at: string, t: string)
    requires |s| >= 1 && s[1 ..] == at + t
    requires forall k :: 0 <= k < |at| ==> at[k] != ';' && at[k] != '\n'
    requires t == [] || t[0] == '\n'
    ensures CommandAt(s, 1) == Parsed(CommandMessage(Command(at, None)), if t == [] then [] else t[1..])
  {
    Field(s, 1, at, t, true);
    RestAfter(s, 1 + |at|, t);
  }

  /** After the tag, a prompt's text is read back as the line. */
  lemma PromptLine(s: string, text: string, t: string)
    requires |s| >= 1 && s[1 ..] == text + t
    requires forall k :: 0 <= k < |text| ==> text[k] != '\n'
    requires t == [] || t[0] == '\n'
    ensures PromptAt(s, 1) == Parsed(PromptMessage(text), if t == [] then [] else t[1..])
  {
    Field(s, 1, text, t, false);
    RestAfter(s, 1 + |text|, t);
  }

  /** What follows a field that ends where t begins: t without its newline. */
  lemma RestAfter(s: string, j: nat, t: string)
    requires j <= |s| && s[j ..] == t && (t == [] || t[0] == '\n')
    ensures s[After(s, j) ..] == if t == [] then [] else t[1..]
  {
    if t != [] {
      assert s[j + 1 ..] == s[j ..][1..];
    }
  }

  /**
    An absent message, written as "0", is rejected by parse unless the next
    character is a digit that joins the tag.
   */
  lemma AbsentRejected(t: string)
    requires t == [] || !IsDigit(t[0])
    ensures ParseSpec(Serialise(None) + t).Failure?
  {
    ReadsTag(0, t);
  }

  /** Any tag other than 1 and 2 is rejected, including ones larger than a digit. */
  lemma UnknownTagRejected(s: string)
    requires ReadUnsigned(s).Some? && ReadUnsigned(s).value.value != 1 && ReadUnsigned(s).value.value != 2
    ensures ParseSpec(s).Failure?
  {
  }
}
