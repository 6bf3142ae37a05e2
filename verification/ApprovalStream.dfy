/** Reading one message from a pipe that delivers bytes in pieces. */
module ApprovalStream {
  import opened Wrappers
  import opened Bytes
  import opened ApprovalPrompts
  import opened ApprovalWire
  import opened ApprovalCodec

  /** What successive `read` calls on a source meet; after the last one comes end of file. */
  datatype Event = Data(bytes: seq<byte>) | Interrupted | Broken

  datatype IoError = UnexpectedEof | Interruption | Other

  predicate Deliverable(events: seq<Event>) {
    forall e :: e in events && e.Data? ==> e.bytes != []
  }

  /** All the bytes a source will ever deliver. */
  function Delivered(events: seq<Event>): seq<byte> {
    if events == [] then []
    else (if events[0].Data? then events[0].bytes else []) + Delivered(events[1..])
  }

  predicate Breaks(events: seq<Event>) {
    Broken in events
  }

  predicate AllData(events: seq<Event>) {
    forall e :: e in events ==> e.Data?
  }

  predicate EndsInterrupted(events: seq<Event>) {
    events != [] && events[|events| - 1].Interrupted?
  }

  /** One `read` as a relation between the events before and after it. */
  predicate OneRead(before: seq<Event>, after: seq<Event>, taken: seq<byte>) {
    if before == [] then after == [] && taken == []
    else if before[0].Data? then
      var rest := before[0].bytes;
      && taken <= rest && taken != []
      && after == (if taken == rest then [] else [Data(rest[|taken|..])]) + before[1..]
    else after == before[1..] && taken == []
  }

  /** Several reads that met no failure and took these bytes. */
  predicate Taken(before: seq<Event>, after: seq<Event>, bytes: seq<byte>) {
    && Delivered(before) == bytes + Delivered(after)
    && (Breaks(before) <==> Breaks(after))
    && (AllData(before) ==> AllData(after))
    && (after != [] ==> (EndsInterrupted(before) <==> EndsInterrupted(after)))
  }

  lemma TakeOne(before: seq<Event>, after: seq<Event>, bytes: seq<byte>)
    requires OneRead(before, after, bytes) && before != [] && !before[0].Broken?
    ensures Taken(before, after, bytes)
    ensures after == [] && bytes != [] ==> !EndsInterrupted(before)
  {
    assert before == [before[0]] + before[1..];
    if before[0].Data? && bytes != before[0].bytes {
      var rest := before[0].bytes[|bytes|..];
      assert after == [Data(rest)] + before[1..] && after[1..] == before[1..];
      assert before[0].bytes == bytes + rest;
      Reassociate(bytes, rest, Delivered(before[1..]));
    } else {
      assert [] + before[1..] == before[1..];
    }
  }

  lemma Reassociate(a: seq<byte>, b: seq<byte>, c: seq<byte>)
    ensures a + (b + c) == a + b + c
  {}

  lemma TakeMore(before: seq<Event>, middle: seq<Event>, after: seq<Event>, bytes: seq<byte>, more: seq<byte>)
    requires Taken(before, middle, bytes) && Taken(middle, after, more) && middle != []
    ensures Taken(before, after, bytes + more)
  {}

  /** `read_exact` filled its buffer. */
  predicate Filled(before: seq<Event>, after: seq<Event>, bytes: seq<byte>) {
    Taken(before, after, bytes) && (EndsInterrupted(before) <==> EndsInterrupted(after))
  }

  class Source {
    var events: seq<Event>

    constructor (events: seq<Event>)
      ensures this.events == events
    {
      this.events := events;
    }

    /** `Read::read` into a buffer of `n` bytes. */
    method Read(n: nat) returns (r: Result<seq<byte>, IoError>)
      requires n > 0 && Deliverable(events)
      modifies this
      ensures Deliverable(events)
      ensures OneRead(old(events), events, if r.Success? then r.value else [])
      ensures r.Success? ==> |r.value| <= n
      ensures r == Failure(Interruption) <==> old(events) != [] && old(events)[0].Interrupted?
      ensures r == Failure(Other) <==> old(events) != [] && old(events)[0].Broken?
      ensures r.Failure? <==> old(events) != [] && !old(events)[0].Data?
    {
      if events == [] {
        return Success([]);
      }
      var e, rest := events[0], events[1..];
      assert e in events && forall x :: x in rest ==> x in events;
      match e
      case Interrupted =>
        events := rest;
        return Failure(Interruption);
      case Broken =>
        events := rest;
        return Failure(Other);
      case Data(bytes) =>
        if |bytes| <= n {
          events := rest;
          return Success(bytes);
        }
        events := [Data(bytes[n..])] + rest;
        return Success(bytes[..n]);
    }

    /** `Read::read_exact`: repeats short and interrupted reads until the buffer is full. */
    method ReadExact(n: nat) returns (r: Result<seq<byte>, IoError>)
      requires Deliverable(events)
      modifies this
      ensures Deliverable(events)
      ensures r.Success? ==> |r.value| == n && Filled(old(events), events, r.value)
      ensures r == Failure(UnexpectedEof) ==> !Breaks(old(events)) && |Delivered(old(events))| < n
      ensures r.Failure? && r.error != UnexpectedEof ==> Breaks(old(events))
      ensures |Delivered(old(events))| - |Delivered(events)| <= n
    {
      var got: seq<byte> := [];
      while |got| < n
        invariant |got| <= n && Deliverable(events)
        invariant Taken(old(events), events, got)
        invariant |got| == n ==> Filled(old(events), events, got)
        decreases n - |got|, |events|
      {
        ghost var before := events;
        var piece := Read(n - |got|);
        match piece
        case Success(bytes) =>
          if bytes == [] {
            return Failure(UnexpectedEof);
          }
          TakeOne(before, events, bytes);
          TakeMore(old(events), before, events, got, bytes);
          got := got + bytes;
        case Failure(e) =>
          if !e.Interruption? {
            return piece;
          }
          TakeOne(before, events, []);
          TakeMore(old(events), before, events, got, []);
          assert got + [] == got;
      }
      r := Success(got);
    }
  }

  // ----- one message -----

  /** What the reader would do with the whole byte string at hand. */
  function ParseOne(bytes: seq<byte>, maximum: nat): (r: Result<seq<byte>, ProtocolError>)
    ensures r.Success? ==> r.value == bytes
  {
    var _ :- Need(|bytes| >= HEADER_BYTES, TruncatedHeader);
    var _ :- DecodeCommonHeader(bytes[..HEADER_BYTES]);
    var length := ReadU32(bytes[..HEADER_BYTES], 16);
    var _ :- Need(length <= maximum, PayloadTooLarge);
    var _ :- Need(|bytes| >= HEADER_BYTES + length, TruncatedPayload);
    var _ :- Need(|bytes| <= HEADER_BYTES + length, TrailingBytes);
    Success(bytes)
  }

  /** The rest of a message whose header declared `length` bytes, and end of file after it. */
  function ParseBody(bytes: seq<byte>, length: nat): Result<seq<byte>, ProtocolError> {
    var _ :- Need(|bytes| >= length, TruncatedPayload);
    var _ :- Need(|bytes| <= length, TrailingBytes);
    Success(bytes)
  }

  /**
   What a source that never breaks gives, whose bytes parse to `parsed` and then mean
   `whole`: every refusal is that of the bytes, except that an interruption at the last
   read hides the trailing bytes or the end of file behind it.
   */
  predicate Outcome<T(==)>(events: seq<Event>, parsed: Result<seq<byte>, ProtocolError>,
                           whole: Result<T, ProtocolError>, r: Result<T, ProtocolError>)
  {
    match parsed
    case Failure(e) => r == Failure(e) || (e.TrailingBytes? && r == Failure(ReadFailed))
    case Success(_) => r == if EndsInterrupted(events) then Failure(ReadFailed) else whole
  }

  /** The last read is not repeated when it is interrupted. */
  method ReadBody(input: Source, length: nat) returns (r: Result<seq<byte>, ProtocolError>)
    requires Deliverable(input.events)
    modifies input
    ensures r.Success? <==>
      && !Breaks(old(input.events)) && !EndsInterrupted(old(input.events))
      && ParseBody(Delivered(old(input.events)), length).Success?
    ensures r.Success? || AllData(old(input.events)) ==> r == ParseBody(Delivered(old(input.events)), length)
    ensures var parsed := ParseBody(Delivered(old(input.events)), length);
            !Breaks(old(input.events)) ==> Outcome(old(input.events), parsed, parsed, r)
    ensures r != Failure(PayloadTooLarge)
    ensures |Delivered(old(input.events))| - |Delivered(input.events)| <= length + 1
  {
    var payload := input.ReadExact(length);
    if payload.Failure? {
      return Failure(if payload.error.UnexpectedEof? then TruncatedPayload else ReadFailed);
    }
    ghost var last := input.events;
    var extra := input.Read(1);
    if last != [] && !last[0].Broken? {
      TakeOne(last, input.events, if extra.Success? then extra.value else []);
    }
    FrontEvent(last);
    assert Delivered(last) == [] <==> |Delivered(old(input.events))| == length;
    assert Delivered(last) == [] ==> Delivered(old(input.events)) == payload.value;
    match extra
    case Success(bytes) =>
      if bytes == [] {
        return Success(payload.value);
      }
      return Failure(TrailingBytes);
    case Failure(_) =>
      assert last != [] && !last[0].Data?;
      return Failure(ReadFailed);
  }

  lemma FrontEvent(events: seq<Event>)
    ensures events != [] && events[0].Broken? ==> Breaks(events) && Delivered(events) == Delivered(events[1..])
    ensures events != [] && !events[0].Data? ==> !AllData(events)
    ensures Deliverable(events) && Delivered(events) == [] && events != [] && !Breaks(events) ==>
      EndsInterrupted(events)
  {
    if events != [] && Deliverable(events) && Delivered(events) == [] && !Breaks(events) {
      OnlyInterrupted(events);
    }
  }

  lemma {:induction false} OnlyInterrupted(events: seq<Event>)
    requires Deliverable(events) && Delivered(events) == [] && !Breaks(events)
    ensures forall e :: e in events ==> e.Interrupted?
  {
    if events != [] {
      assert events[0] in events && forall e :: e in events[1..] ==> e in events;
      OnlyInterrupted(events[1..]);
      assert events == [events[0]] + events[1..];
    }
  }

  /**
   Reads one framed message and requires end of file after it. A declared payload above
   the limit is refused with nothing but the header read.
   */
  method ReadOneMessage(input: Source, maximum: nat) returns (r: Result<seq<byte>, ProtocolError>)
    requires Deliverable(input.events)
    modifies input
    ensures r.Success? <==>
      && !Breaks(old(input.events)) && !EndsInterrupted(old(input.events))
      && ParseOne(Delivered(old(input.events)), maximum).Success?
    ensures r.Success? || AllData(old(input.events)) ==> r == ParseOne(Delivered(old(input.events)), maximum)
    ensures var parsed := ParseOne(Delivered(old(input.events)), maximum);
            !Breaks(old(input.events)) ==> Outcome(old(input.events), parsed, parsed, r)
    ensures r == Failure(PayloadTooLarge) ==>
      |Delivered(old(input.events))| - |Delivered(input.events)| == HEADER_BYTES
    ensures |Delivered(old(input.events))| - |Delivered(input.events)| <= HEADER_BYTES + maximum + 1
  {
    ghost var all := Delivered(input.events);
    var header := input.ReadExact(HEADER_BYTES);
    if header.Failure? {
      return Failure(if header.error.UnexpectedEof? then TruncatedHeader else ReadFailed);
    }
    assert all[..HEADER_BYTES] == header.value;
    var common := DecodeCommonHeader(header.value);
    if common.Failure? {
      return Failure(common.error);
    }
    var length := ReadU32(header.value, 16);
    if length > maximum {
      return Failure(PayloadTooLarge);
    }
    ParseSplit(header.value, Delivered(input.events), maximum);
    var payload := ReadBody(input, length);
    if payload.Failure? {
      return Failure(payload.error);
    }
    r := Success(header.value + payload.value);
  }

  lemma ParseSplit(header: seq<byte>, rest: seq<byte>, maximum: nat)
    requires |header| == HEADER_BYTES && DecodeCommonHeader(header).Success? && ReadU32(header, 16) <= maximum
    ensures ParseOne(header + rest, maximum) ==
      match ParseBody(rest, ReadU32(header, 16)) case Success(b) => Success(header + b) case Failure(e) => Failure(e)
  {
    assert (header + rest)[..HEADER_BYTES] == header;
  }

  // ----- the two readers -----

  method ReadPrompt(input: Source) returns (r: Result<ApprovalPrompt, ProtocolError>)
    requires Deliverable(input.events)
    modifies input
    ensures forall p :: r == Success(p) <==>
      && DecodePrompt(Delivered(old(input.events))) == Success(p)
      && !Breaks(old(input.events)) && !EndsInterrupted(old(input.events))
    ensures var all := Delivered(old(input.events));
            var parsed := ParseOne(all, MAX_PROMPT_PAYLOAD);
            !Breaks(old(input.events)) ==>
              && Outcome(old(input.events), parsed, DecodePrompt(all), r)
              && (parsed == Failure(PayloadTooLarge) ==> |all| - |Delivered(input.events)| == HEADER_BYTES)
    ensures |Delivered(old(input.events))| - |Delivered(input.events)| <= HEADER_BYTES + MAX_PROMPT_PAYLOAD + 1
  {
    hide DecodePrompt, ParseOne, Delivered;
    ghost var all := Delivered(input.events);
    if DecodePrompt(all).Success? {
      PromptParses(all);
    }
    var message :- ReadOneMessage(input, MAX_PROMPT_PAYLOAD);
    r := DecodePrompt(message);
  }

  method ReadDecision(input: Source) returns (r: Result<DecisionResponse, ProtocolError>)
    requires Deliverable(input.events)
    modifies input
    ensures forall d :: r == Success(d) <==>
      && DecodeDecision(Delivered(old(input.events))) == Success(d)
      && !Breaks(old(input.events)) && !EndsInterrupted(old(input.events))
    ensures var all := Delivered(old(input.events));
            var parsed := ParseOne(all, DECISION_PAYLOAD_BYTES);
            !Breaks(old(input.events)) ==>
              && Outcome(old(input.events), parsed, DecodeDecision(all), r)
              && (parsed == Failure(PayloadTooLarge) ==> |all| - |Delivered(input.events)| == HEADER_BYTES)
    ensures |Delivered(old(input.events))| - |Delivered(input.events)| <= HEADER_BYTES + DECISION_PAYLOAD_BYTES + 1
  {
    hide DecodeDecision, ParseOne, Delivered;
    ghost var all := Delivered(input.events);
    if DecodeDecision(all).Success? {
      DecisionParses(all);
    }
    var message :- ReadOneMessage(input, DECISION_PAYLOAD_BYTES);
    r := DecodeDecision(message);
  }

  lemma ParseIsFraming(m: seq<byte>, maximum: nat)
    ensures ParseOne(m, maximum) == Success(m) <==>
      exists t: u16 :: |m| >= HEADER_BYTES && Framed(m, t, m[HEADER_BYTES..]) && |m| <= HEADER_BYTES + maximum
  {
    if |m| >= HEADER_BYTES {
      SameHeader(m);
      var t := ReadU16(m, 12);
      HeaderExact(m, t, maximum, m[HEADER_BYTES..]);
      if exists u: u16 :: Framed(m, u, m[HEADER_BYTES..]) {
        var u: u16 :| Framed(m, u, m[HEADER_BYTES..]);
        ReadU16Of(m, 12, u);
      }
    }
  }

  /** Which refusal a byte string meets, by its length and the length its header declares. */
  lemma ParseCases(bytes: seq<byte>, maximum: nat)
    ensures |bytes| < 20 ==> ParseOne(bytes, maximum) == Failure(TruncatedHeader)
    ensures |bytes| >= 20 ==>
      var declared := FromBE(bytes[16..20]);
      ParseOne(bytes, maximum) ==
        match DecodeCommonHeader(bytes)
        case Failure(e) => Failure(e)
        case Success(_) =>
          if declared > maximum then Failure(PayloadTooLarge)
          else if |bytes| < 20 + declared then Failure(TruncatedPayload)
          else if |bytes| > 20 + declared then Failure(TrailingBytes)
          else Success(bytes)
  {
    hide DecodeCommonHeader;
    if |bytes| >= 20 {
      SameHeader(bytes);
      assert bytes[..20][16..20] == bytes[16..20];
    }
  }

  /** The header check looks at the first twenty bytes only. */
  lemma SameHeader(m: seq<byte>)
    requires |m| >= HEADER_BYTES
    ensures DecodeCommonHeader(m[..HEADER_BYTES]) == DecodeCommonHeader(m)
    ensures ReadU32(m[..HEADER_BYTES], 16) == ReadU32(m, 16)
  {
    var h := m[..HEADER_BYTES];
    assert h[..8] == m[..8];
    assert h[8..10] == m[8..10] && h[10..12] == m[10..12] && h[12..14] == m[12..14] && h[14..16] == m[14..16];
    assert h[16..20] == m[16..20];
  }

  lemma PromptParses(m: seq<byte>)
    requires DecodePrompt(m).Success?
    ensures ParseOne(m, MAX_PROMPT_PAYLOAD) == Success(m)
  {
    hide ReadPayload, FinishPrompt;
    var t := DecodeCommonHeader(m).value;
    HeaderExact(m, t, MaxPayload(t), DecodeHeader(m, t, MaxPayload(t)).value);
    ParseIsFraming(m, MAX_PROMPT_PAYLOAD);
  }

  lemma DecisionParses(m: seq<byte>)
    requires DecodeDecision(m).Success?
    ensures ParseOne(m, DECISION_PAYLOAD_BYTES) == Success(m)
  {
    var d := DecodeDecision(m).value;
    DecisionSound(m, d);
    ParseIsFraming(m, DECISION_PAYLOAD_BYTES);
  }
}
