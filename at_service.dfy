/**
  The serial side of the service daemon (uart_service/src/service.cpp): the
  scanner that collects a modem's answer to one AT command up to "OK", the
  loop that assembles CR LF terminated lines from the modem and dispatches
  them, and the handler that queues commands arriving from the front end.

  The serial port is the sequence of bytes still to arrive (its end stands
  for the port closing or for every timeout), the serial writes and the pipe
  messages are logs, and the queue of pending commands is a sequence whose
  front is the oldest entry.
 */
module AtService {
  import opened Wrappers
  import opened Ipc
  import opened Sequences

  /** The part of the service the model tracks. */
  datatype ServiceState = ServiceState(
    rx: string,               // bytes the modem has yet to deliver
    serialOut: string,        // everything written to the serial port
    pipeOut: seq<Message>,    // messages sent on the command pipe
    queue: seq<Command>)      // m_incoming_commands, front first

  // ---------------------------------------------------------------------------
  // Strings as C strings and as searched text
  // ---------------------------------------------------------------------------

  /** What a char* built with c_str() carries: the string up to its first NUL. */
  function CStr(s: string): (c: string)
    ensures |c| <= |s| && c == s[.. |c|]
    ensures forall k :: 0 <= k < |c| ==> c[k] != '\0'
    ensures |c| < |s| ==> s[|c|] == '\0'
  {
    if s == [] || s[0] == '\0' then [] else [s[0]] + CStr(s[1..])
  }

  /** SerialPi::println: the C string followed by CR LF. */
  function Println(s: string): string {
    CStr(s) + "\r\n"
  }

  predicate OccursAt(s: string, pat: string, k: nat) {
    k + |pat| <= |s| && s[k .. k + |pat|] == pat
  }

  /** std::string::find from position i: the first occurrence at or after i. */
  function FindFrom(s: string, pat: string, i: nat): (r: Option<nat>)
    ensures r.Some? ==> i <= r.value && OccursAt(s, pat, r.value)
    ensures r.Some? ==> forall j :: i <= j < r.value ==> !OccursAt(s, pat, j)
    ensures r.None? ==> forall j :: i <= j ==> !OccursAt(s, pat, j)
    decreases |s| - i
  {
    if i + |pat| > |s| then None
    else if OccursAt(s, pat, i) then Some(i)
    else FindFrom(s, pat, i + 1)
  }

  /** std::string::find: the first occurrence, or npos (None). */
  function Find(s: string, pat: string): Option<nat> {
    FindFrom(s, pat, 0)
  }

  /** The bytes without their carriage returns. */
  function RemoveCr(s: string): (r: string)
    ensures |r| <= |s|
    ensures forall k :: 0 <= k < |r| ==> r[k] != '\r'
  {
    if s == [] then [] else (if s[0] == '\r' then [] else [s[0]]) + RemoveCr(s[1..])
  }

  // ---------------------------------------------------------------------------
  // The response scanner of send_command_get_respond (service.cpp:150-176)
  // ---------------------------------------------------------------------------

  /** The text a scan collects and the number of bytes it consumes. */
  datatype Scan = Scan(out: string, used: nat)

  /** A consumed byte that emits prefix before the rest of the scan. */
  function Emit(prefix: string, rest: Scan): Scan {
    Scan(prefix + rest.out, rest.used + 1)
  }

  /**
    The scan from the given bytes with the "held O" flag: an unheld 'O' is held
    and emits nothing; a held 'O' followed by 'K' ends the scan, dropping both;
    a held 'O' followed by any other byte emits 'O' and that byte and clears
    the hold; an unheld '\r' is dropped and any other unheld byte is kept. The
    bytes ending leaves what was collected, and a held 'O' is lost.
   */
  function ScanFrom(rx: string, held: bool): (r: Scan)
    ensures r.used <= |rx|
  {
    if rx == [] then Scan([], 0)
    else
      var c := rx[0];
      if !held && c == 'O' then Emit([], ScanFrom(rx[1..], true))
      else if held then
        if c == 'K' then Scan([], 1) else Emit(['O', c], ScanFrom(rx[1..], false))
      else if c != '\r' then Emit([c], ScanFrom(rx[1..], false))
      else Emit([], ScanFrom(rx[1..], false))
  }

  /** The scan never emits more than it consumes, counting a held 'O' as consumed before. */
  lemma {:induction false} ScanBound(rx: string, held: bool)
    ensures |ScanFrom(rx, held).out| <= ScanFrom(rx, held).used + (if held then 1 else 0)
  {
    if rx != [] {
      var c := rx[0];
      if !held && c == 'O' {
        ScanBound(rx[1..], true);
      } else if held {
        if c != 'K' {
          ScanBound(rx[1..], false);
        }
      } else {
        ScanBound(rx[1..], false);
      }
    }
  }

  /** Without any 'O' the scan consumes every byte and keeps all but the carriage returns. */
  lemma {:induction false} ScanWithoutO(rx: string)
    requires forall k :: 0 <= k < |rx| ==> rx[k] != 'O'
    ensures ScanFrom(rx, false) == Scan(RemoveCr(rx), |rx|)
  {
    if rx != [] {
      ScanWithoutO(rx[1..]);
    }
  }

  /**
    "OK" after bytes without 'O' ends the scan right after the 'K': the answer
    is those bytes without carriage returns, and nothing after "OK" is read.
   */
  lemma {:induction false} ScanStopsAtOk(p: string, q: string)
    requires forall k :: 0 <= k < |p| ==> p[k] != 'O'
    ensures ScanFrom(p + "OK" + q, false) == Scan(RemoveCr(p), |p| + 2)
  {
    if p == [] {
      assert ("OK" + q)[1..] == "K" + q;
    } else {
      assert (p + "OK" + q)[1..] == p[1..] + "OK" + q;
      ScanStopsAtOk(p[1..], q);
    }
  }

  /** A held 'O' at the end of the bytes is lost: the answer is what came before it. */
  lemma {:induction false} HeldOIsLost(p: string)
    requires forall k :: 0 <= k < |p| ==> p[k] != 'O'
    ensures ScanFrom(p + "O", false) == Scan(RemoveCr(p), |p| + 1)
  {
    if p == [] {
      assert ("O" + [])[1..] == [];
    } else {
      assert (p + "O")[1..] == p[1..] + "O";
      HeldOIsLost(p[1..]);
    }
  }

  /** "OOK" does not end the scan: the second 'O' is emitted with the first, and 'K' is then kept. */
  lemma DoubleOIsKept()
    ensures ScanFrom("OOK", false) == Scan("OOK", 3)
  {
    assert "OOK"[1..] == "OK";
    assert "OK"[1..] == "K";
    assert "K"[1..] == [];
  }

  /** The reply to one command: the new state and the answer, or None on a timeout. */
  datatype Exchange = Exchange(state: ServiceState, respond: Option<string>)

  /**
    send_command_get_respond(command): the stale bytes pending at the call are
    flushed, the command is written with CR LF, and the answer is None when no
    byte arrives, or else the scan of what arrives.
   */
  function SendSpec(st: ServiceState, command: string, stale: nat): (r: Exchange)
    requires stale <= |st.rx|
    ensures |r.state.rx| <= |st.rx|
  {
    var rx := st.rx[stale..];
    var written := st.(serialOut := st.serialOut + Println(command));
    if rx == [] then Exchange(written.(rx := rx), None)
    else
      var scan := ScanFrom(rx, false);
      Exchange(written.(rx := rx[scan.used..]), Some(scan.out))
  }

  /**
    A command always goes out on the serial port and leaves the queue and the
    pipe alone; the answer is None exactly when nothing arrives after the
    flush, and otherwise it is the scan of the bytes that do.
   */
  lemma SendWritesAndScans(st: ServiceState, command: string, stale: nat)
    requires stale <= |st.rx|
    ensures SendSpec(st, command, stale).state.serialOut == st.serialOut + CStr(command) + "\r\n"
    ensures SendSpec(st, command, stale).state.queue == st.queue
    ensures SendSpec(st, command, stale).state.pipeOut == st.pipeOut
    ensures SendSpec(st, command, stale).respond.None? <==> stale == |st.rx|
    ensures SendSpec(st, command, stale).respond.Some? ==>
      SendSpec(st, command, stale).respond.value == ScanFrom(st.rx[stale..], false).out
      && st.rx[stale..] == st.rx[stale .. stale + ScanFrom(st.rx[stale..], false).used] + SendSpec(st, command, stale).state.rx
  {
  }

  // ---------------------------------------------------------------------------
  // Line dispatch in loop() (service.cpp:77-116)
  // ---------------------------------------------------------------------------

  const CmtiMarker: string := "+CMTI:"
  const StorageMarker: string := "\"SM\","
  const RingMarker: string := "ATA"
  const CallPrompt: string := "Incoming phone call"

  /**
    What one complete line does: a "+CMTI:" line queries the message at the
    first "SM", marker (and nothing else when there is none); otherwise an
    "ATA" line reports the call on the pipe; otherwise the oldest queued
    command is popped and, when it accepts the line, the line is sent back as
    a prompt; with an empty queue nothing happens.
   */
  function DispatchSpec(st: ServiceState, content: string): (r: ServiceState)
    ensures |r.rx| <= |st.rx|
  {
    if Find(content, CmtiMarker).Some? then
      match Find(content, StorageMarker)
      case Some(k) => SendSpec(st, "AT+CMGR=" + content[k..], 0).state
      case None => st
    else if Find(content, RingMarker).Some? then
      st.(pipeOut := st.pipeOut + [PromptMessage(CallPrompt)])
    else if st.queue == [] then st
    else
      var popped := st.(queue := st.queue[1..]);
      if Verify(st.queue[0], content).None? then popped.(pipeOut := popped.pipeOut + [PromptMessage(content)])
      else popped
  }

  /** A line that is neither an SMS notice nor a ring. */
  predicate QueueLine(content: string) {
    Find(content, CmtiMarker).None? && Find(content, RingMarker).None?
  }

  /**
    A queue line with a command pending removes exactly the front command,
    whether or not it accepts the line, and sends the line back exactly when
    it does; the serial port is untouched.
   */
  lemma QueueLinePopsFront(st: ServiceState, content: string)
    requires QueueLine(content) && st.queue != []
    ensures DispatchSpec(st, content).queue == st.queue[1..]
    ensures Verify(st.queue[0], content).None? ==>
      DispatchSpec(st, content).pipeOut == st.pipeOut + [PromptMessage(content)]
    ensures Verify(st.queue[0], content).Some? ==> DispatchSpec(st, content).pipeOut == st.pipeOut
    ensures DispatchSpec(st, content).rx == st.rx && DispatchSpec(st, content).serialOut == st.serialOut
  {
  }

  /** A queue line with no command pending changes nothing. */
  lemma QueueLineWithEmptyQueue(st: ServiceState, content: string)
    requires QueueLine(content) && st.queue == []
    ensures DispatchSpec(st, content) == st
  {
  }

  /**
    An SMS notice takes priority over everything else: the queue and the pipe
    are left alone (even when the line also holds "ATA"), and the query, when
    there is an "SM", marker, is AT+CMGR= followed by the line from that
    marker on.
   */
  lemma NoticeQueriesMessage(st: ServiceState, content: string)
    requires Find(content, CmtiMarker).Some?
    ensures DispatchSpec(st, content).queue == st.queue && DispatchSpec(st, content).pipeOut == st.pipeOut
    ensures Find(content, StorageMarker).None? ==> DispatchSpec(st, content) == st
    ensures Find(content, StorageMarker).Some? ==>
      var k := Find(content, StorageMarker).value;
      DispatchSpec(st, content).serialOut == st.serialOut + CStr("AT+CMGR=" + content[k..]) + "\r\n"
  {
    if Find(content, StorageMarker).Some? {
      SendWritesAndScans(st, "AT+CMGR=" + content[Find(content, StorageMarker).value..], 0);
    }
  }

  /** A ring announcement (not an SMS notice) sends the call prompt and leaves the queue alone. */
  lemma RingSendsPrompt(st: ServiceState, content: string)
    requires Find(content, CmtiMarker).None? && Find(content, RingMarker).Some?
    ensures DispatchSpec(st, content) == st.(pipeOut := st.pipeOut + [PromptMessage(CallPrompt)])
  {
  }

  // ---------------------------------------------------------------------------
  // frontend_request_handler (service.cpp:181-192)
  // ---------------------------------------------------------------------------

  /** A command is written to the serial port and queued at the back; a prompt is ignored. */
  function HandleSpec(st: ServiceState, m: Message): ServiceState {
    match m
    case CommandMessage(c) =>
      st.(serialOut := st.serialOut + Println(MessageText(m)), queue := st.queue + [c])
    case PromptMessage(_) => st
  }

  /**
    The queue is first in, first out: a command handled while others wait is
    answered after them, since a queue line pops the oldest entry and the
    handler appends at the back.
   */
  lemma QueueIsFifo(st: ServiceState, c: Command, content: string)
    requires QueueLine(content) && st.queue != []
    ensures DispatchSpec(HandleSpec(st, CommandMessage(c)), content).queue == st.queue[1..] + [c]
  {
    assert HandleSpec(st, CommandMessage(c)).queue[1..] == st.queue[1..] + [c];
  }

  /**
    With nothing pending, a handled command is the one the next queue line is
    checked against: the line is sent back exactly when the command accepts it,
    and the queue is empty again.
   */
  lemma HandledCommandAnswered(st: ServiceState, c: Command, content: string)
    requires QueueLine(content) && st.queue == []
    ensures DispatchSpec(HandleSpec(st, CommandMessage(c)), content).queue == []
    ensures Verify(c, content).None? <==>
      DispatchSpec(HandleSpec(st, CommandMessage(c)), content).pipeOut == st.pipeOut + [PromptMessage(content)]
  {
    var h := HandleSpec(st, CommandMessage(c));
    assert h.queue == [c];
    if Verify(c, content).Some? {
      assert DispatchSpec(h, content).pipeOut == st.pipeOut;
      assert |st.pipeOut + [PromptMessage(content)]| != |st.pipeOut|;
    }
  }

  // ---------------------------------------------------------------------------
  // Line assembly in loop() (service.cpp:67-123)
  // ---------------------------------------------------------------------------

  /** The loop's state besides the service: the line buffer and the previous byte. */
  datatype Run = Run(state: ServiceState, incoming: string, last: char)

  /**
    The loop from the given state: each byte is taken from the port; a '\n'
    right after '\r' dispatches the whole buffer, which incoming.clear() does
    not empty; any other byte except '\r' is appended to the buffer. The loop
    ends when the port has nothing more.
   */
  function RunFrom(st: ServiceState, incoming: string, last: char): (r: Run)
    ensures |r.state.rx| == 0
    decreases |st.rx|
  {
    if st.rx == [] then Run(st, incoming, last)
    else
      var first := st.rx[0];
      var taken := st.(rx := st.rx[1..]);
      if first == '\n' && last == '\r' then RunFrom(DispatchSpec(taken, incoming), incoming, first)
      else if first != '\r' then RunFrom(taken, incoming + [first], first)
      else RunFrom(taken, incoming, first)
  }

  /** The three configuration commands loop() sends before reading lines. */
  function SetupSpec(st: ServiceState): ServiceState {
    var s1 := SendSpec(st, "AT+CMGF=1", 0).state;
    var s2 := SendSpec(s1, "AT+CSCS=\"UCS2\"", 0).state;
    SendSpec(s2, "AT+CNMI=2,1", 0).state
  }

  /** loop() from the start: the configuration, then lines from an empty buffer with no previous byte. */
  function LoopSpec(st: ServiceState): Run {
    RunFrom(SetupSpec(st), [], '\0')
  }

  /** The line buffer is never emptied: every buffer the loop holds extends the one it started with. */
  lemma {:induction false} BufferOnlyGrows(st: ServiceState, incoming: string, last: char)
    ensures incoming <= RunFrom(st, incoming, last).incoming
    decreases |st.rx|
  {
    if st.rx != [] {
      var first := st.rx[0];
      var taken := st.(rx := st.rx[1..]);
      if first == '\n' && last == '\r' {
        BufferOnlyGrows(DispatchSpec(taken, incoming), incoming, first);
      } else if first != '\r' {
        BufferOnlyGrows(taken, incoming + [first], first);
      } else {
        BufferOnlyGrows(taken, incoming, first);
      }
    }
  }

  /** A carriage return is never stored in the line buffer. */
  lemma {:induction false} NoCarriageReturnStored(st: ServiceState, incoming: string, last: char)
    requires forall k :: 0 <= k < |incoming| ==> incoming[k] != '\r'
    ensures forall k :: 0 <= k < |RunFrom(st, incoming, last).incoming| ==> RunFrom(st, incoming, last).incoming[k] != '\r'
    decreases |st.rx|
  {
    if st.rx != [] {
      var first := st.rx[0];
      var taken := st.(rx := st.rx[1..]);
      if first == '\n' && last == '\r' {
        NoCarriageReturnStored(DispatchSpec(taken, incoming), incoming, first);
      } else if first != '\r' {
        NoCarriageReturnStored(taken, incoming + [first], first);
      } else {
        NoCarriageReturnStored(taken, incoming, first);
      }
    }
  }

  /** No '\n' of the bytes comes right after a '\r' (the byte before the first is last). */
  predicate NoCrLf(rx: string, last: char) {
    rx == [] || ((rx[0] == '\n' ==> last != '\r') && NoCrLf(rx[1..], rx[0]))
  }

  /** The byte a run of bytes leaves as the previous one. */
  function LastOf(rx: string, last: char): char {
    if rx == [] then last else rx[|rx| - 1]
  }

  /** The byte a loop iteration stores: nothing for '\r', the byte itself otherwise. */
  function Stored(c: char): string {
    if c == '\r' then [] else [c]
  }

  /** One iteration that does not end a line: the byte is taken and stored unless it is '\r'. */
  lemma StoreStep(st: ServiceState, incoming: string, last: char)
    requires st.rx != [] && !(st.rx[0] == '\n' && last == '\r')
    ensures RunFrom(st, incoming, last) == RunFrom(st.(rx := st.rx[1..]), incoming + Stored(st.rx[0]), st.rx[0])
  {
    if st.rx[0] == '\r' {
      assert incoming + Stored(st.rx[0]) == incoming;
    }
  }

  /**
    Bytes without a CR LF pair dispatch nothing: the buffer gains them without
    their carriage returns (a lone '\n' included), and the service is as before
    with the bytes consumed.
   */
  lemma {:induction false} NoLineWithoutCrLf(st: ServiceState, incoming: string, last: char)
    requires NoCrLf(st.rx, last)
    ensures RunFrom(st, incoming, last) == Run(st.(rx := []), incoming + RemoveCr(st.rx), LastOf(st.rx, last))
    decreases |st.rx|
  {
    if st.rx != [] {
      var first := st.rx[0];
      var taken := st.(rx := st.rx[1..]);
      var pushed := incoming + Stored(first);
      StoreStep(st, incoming, last);
      NoLineWithoutCrLf(taken, pushed, first);
      assert LastOf(taken.rx, first) == LastOf(st.rx, last);
      assert pushed + RemoveCr(taken.rx) == incoming + RemoveCr(st.rx);
      assert taken.(rx := []) == st.(rx := []);
    }
  }

  /**
    A line ended by CR LF is dispatched as the whole buffer: the buffer it
    started with followed by the line's bytes without carriage returns, and the
    '\n' is not stored. The loop then goes on with that same buffer.
   */
  lemma {:induction false} LineDispatch(st: ServiceState, incoming: string, last: char, p: string, q: string)
    requires st.rx == p + "\r\n" + q && NoCrLf(p, last)
    ensures RunFrom(st, incoming, last) ==
      RunFrom(DispatchSpec(st.(rx := q), incoming + RemoveCr(p)), incoming + RemoveCr(p), '\n')
    decreases |p|
  {
    var first := st.rx[0];
    var taken := st.(rx := st.rx[1..]);
    if p == [] {
      assert first == '\r' && taken.rx == "\n" + q;
      StoreStep(st, incoming, last);
      assert incoming + Stored(first) == incoming + RemoveCr(p) == incoming;
      assert taken.rx[1..] == q && taken.(rx := q) == st.(rx := q);
    } else {
      assert taken.rx == p[1..] + "\r\n" + q;
      var pushed := incoming + Stored(first);
      StoreStep(st, incoming, last);
      LineDispatch(taken, pushed, first, p[1..], q);
      assert pushed + RemoveCr(p[1..]) == incoming + RemoveCr(p);
      assert taken.(rx := q) == st.(rx := q);
    }
  }

  /** The bytes one scanned byte emits, given whether an 'O' was held. */
  function StepEmit(c: char, held: bool): string {
    if !held && c == 'O' then [] else if held then ['O', c] else if c != '\r' then [c] else []
  }

  /** One byte of the scan other than the 'K' that ends it. */
  lemma ScanStep(rx: string, held: bool)
    requires rx != [] && !(held && rx[0] == 'K')
    ensures ScanFrom(rx, held) == Emit(StepEmit(rx[0], held), ScanFrom(rx[1..], !held && rx[0] == 'O'))
  {
  }

  // ---------------------------------------------------------------------------
  // The service object
  // ---------------------------------------------------------------------------

  /** The Service class, reduced to its serial port, its pipe and its command queue. */
  class Service {
    var rx: string
    var serialOut: string
    var pipeOut: seq<Message>
    var queue: seq<Command>

    function State(): ServiceState
      reads this
    {
      ServiceState(rx, serialOut, pipeOut, queue)
    }

    /** A service over a port that will deliver the given bytes, with empty logs and queue. */
    constructor (bytes: string)
      ensures State() == ServiceState(bytes, [], [], [])
    {
      rx := bytes;
      serialOut := [];
      pipeOut := [];
      queue := [];
    }

    /**
      send_command_get_respond: flush the stale bytes, write the command,
      then, if a byte arrives, scan up to "OK" or the end of the bytes.
     */
    method SendCommandGetRespond(command: string, stale: nat) returns (respond: Option<string>)
      requires stale <= |rx|
      modifies this
      ensures State() == SendSpec(old(State()), command, stale).state
      ensures respond == SendSpec(old(State()), command, stale).respond
    {
      rx := rx[stale..];
      serialOut := serialOut + Println(command);
      if rx == [] {
        return None;
      }
      var oss := ScanReply();
      respond := Some(oss);
    }

    /** SerialPi::receive: the next byte from the port. */
    method Receive() returns (c: char)
      requires rx != []
      modifies this
      ensures c == old(rx[0]) && State() == old(State()).(rx := old(rx[1..]))
    {
      c := rx[0];
      rx := rx[1..];
    }

    /** The scanning loop of send_command_get_respond, with the "held O" flag oFound. */
    method ScanReply() returns (oss: string)
      modifies this
      ensures oss == ScanFrom(old(rx), false).out
      ensures State() == old(State()).(rx := old(rx)[ScanFrom(old(rx), false).used..])
    {
      ghost var s0 := State();
      ghost var used := 0;
      oss := [];
      var oFound := false;
      while rx != []
        invariant used <= |s0.rx| && State() == s0.(rx := s0.rx[used..])
        invariant ScanFrom(s0.rx, false).out == oss + ScanFrom(rx, oFound).out
        invariant ScanFrom(s0.rx, false).used == used + ScanFrom(rx, oFound).used
        decreases |rx|
      {
        ghost var before, held, pending := rx, oFound, oss;
        var c := Receive();
        used := used + 1;
        if !oFound && c == 'O' {
          oFound := true;
        } else if oFound {
          if c == 'K' {
            break;
          } else {
            oFound := false;
          }
          oss := oss + ['O', c];
        } else if c != '\r' {
          oss := oss + [c];
        }
        ScanStep(before, held);
        Reassociate(pending, StepEmit(c, held), ScanFrom(rx, oFound).out);
      }
    }

    /** The dispatch of one complete line (service.cpp:77-116). */
    method Dispatch(content: string)
      modifies this
      ensures State() == DispatchSpec(old(State()), content)
    {
      if Find(content, CmtiMarker).Some? {
        var smCnt := Find(content, StorageMarker);
        if smCnt.Some? {
          var respond := SendCommandGetRespond("AT+CMGR=" + content[smCnt.value..], 0);
          // sms_handler(*respond) is empty
        }
      } else if Find(content, RingMarker).Some? {
        pipeOut := pipeOut + [PromptMessage(CallPrompt)];
      } else if queue != [] {
        var latestCommand := queue[0];
        queue := queue[1..];
        var error := Verify(latestCommand, content);
        if error.None? {
          pipeOut := pipeOut + [PromptMessage(content)];
        }
      }
    }

    /** loop(): the configuration commands, then line assembly until the port has nothing more. */
    method Loop()
      modifies this
      ensures State() == LoopSpec(old(State())).state
    {
      var hi := SendCommandGetRespond("AT+CMGF=1", 0);
      hi := SendCommandGetRespond("AT+CSCS=\"UCS2\"", 0);
      hi := SendCommandGetRespond("AT+CNMI=2,1", 0);
      ghost var start := State();
      var incoming := [];
      var last: char := '\0';
      while rx != []
        invariant RunFrom(State(), incoming, last) == RunFrom(start, [], '\0')
        decreases |rx|
      {
        var first := Receive();
        if first == '\n' && last == '\r' {
          var content := incoming;
          // incoming.clear() resets the stream's flags and leaves its text
          Dispatch(content);
        } else if first != '\r' {
          incoming := incoming + [first];
        }
        last := first;
      }
    }

    /** frontend_request_handler: queue a command after writing it to the modem; ignore anything else. */
    method FrontendRequestHandler(request: Message)
      modifies this
      ensures State() == HandleSpec(old(State()), request)
    {
      if !request.CommandMessage? {
        return;
      }
      serialOut := serialOut + Println(MessageText(request));
      queue := queue + [request.command];
    }
  }
}
