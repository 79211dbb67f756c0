/**
  The single-payload channel (code/MainCode.py). Every packet carries the
  same filler. A '1' is a burst of `burst_size_one` packets, a '0' a
  burst of `burst_size_zero` packets, and the message ends with a burst of
  `burst_size_stop` packets. The receiver tells bursts apart only by their
  size, which it classifies when its socket times out.
 */
module MainCode {
  import opened Burst
  import opened BitText
  import opened DumpData

  /** Everything `send` transmits: the bit loop, then the stop burst, every packet carrying `payload`. */
  function Transmission(message: string, one: int, zero: int, stop: int, payload: seq<Byte>): seq<Event>
  {
    Encode(message, one, zero, payload, payload) + Packets(stop, payload)
  }

  /**
    One iteration of the receive loop. A packet of any content is counted.
    A timeout classifies the pending count, checking the size of a '1' first,
    then of a '0', then of the stop burst; a count matching none is ignored.
   */
  function Step(one: int, zero: int, stop: int, s: Receiver, e: Event): (r: Receiver)
    ensures e.Packet? ==> r.burstCount == s.burstCount + 1 && r.decodedMessage == s.decodedMessage
    ensures e.Timeout? ==> r.burstCount == 0
    ensures s.decodedMessage <= r.decodedMessage && |r.decodedMessage| <= |s.decodedMessage| + 1
    ensures |r.decodedMessage| == |s.decodedMessage| + 1 <==>
      e.Timeout? && (s.burstCount == one || s.burstCount == zero)
    ensures |r.decodedMessage| == |s.decodedMessage| + 1 ==>
      r.decodedMessage[|s.decodedMessage|] == if s.burstCount == one then '1' else '0'
    ensures r.stopReceived <==>
      s.stopReceived || (e.Timeout? && s.burstCount == stop && s.burstCount != one && s.burstCount != zero)
    ensures r.stopReceived && !s.stopReceived ==> r.decodedMessage == s.decodedMessage
  {
    match e
    case Packet(_) => s.(burstCount := s.burstCount + 1)
    case Timeout =>
      if s.burstCount == one then s.(burstCount := 0, decodedMessage := s.decodedMessage + "1")
      else if s.burstCount == zero then s.(burstCount := 0, decodedMessage := s.decodedMessage + "0")
      else if s.burstCount == stop then s.(burstCount := 0, stopReceived := true)
      else s.(burstCount := 0)
  }

  function Stepper(one: int, zero: int, stop: int): (Receiver, Event) -> Receiver
  {
    (s, e) => Step(one, zero, stop, s, e)
  }

  /** What the receive loop has made of `events`, starting from a fresh socket. */
  function Decode(one: int, zero: int, stop: int, events: seq<Event>): Receiver
  {
    Run(Stepper(one, zero, stop), Listening, events)
  }

  /** With positive, pairwise distinct sizes every burst the sender makes is classified as intended. */
  lemma StepperClassifies(one: int, zero: int, stop: int, payload: seq<Byte>)
    requires 0 < one && 0 < zero && 0 < stop && one != zero && one != stop && zero != stop
    ensures CountsPacket(Stepper(one, zero, stop), payload)
    ensures ClassifiesData(Stepper(one, zero, stop), one, zero)
  {
  }

  /** The decoded message only grows at its end: what was decoded from a prefix of the traffic is kept. */
  lemma DecodeAppendsOnly(one: int, zero: int, stop: int, a: seq<Event>, b: seq<Event>)
    ensures Decode(one, zero, stop, a).decodedMessage <= Decode(one, zero, stop, a + b).decodedMessage
  {
    var step := Stepper(one, zero, stop);
    RunConcat(step, Listening, a, b);
    RunAppendsOnly(step, Decode(one, zero, stop, a), b);
  }

  /** A burst of exactly `burst_size_stop` packets followed by a timeout ends reception, appending nothing. */
  lemma {:induction false} StopBurstEnds(one: int, zero: int, stop: int, payload: seq<Byte>, d: string)
    requires 0 < one && 0 < zero && 0 < stop && one != zero && one != stop && zero != stop
    ensures Run(Stepper(one, zero, stop), Receiver(0, d, false), Packets(stop, payload) + [Timeout])
         == Receiver(0, d, true)
  {
    var step := Stepper(one, zero, stop);
    StepperClassifies(one, zero, stop, payload);
    RunPackets(step, Receiver(0, d, false), stop, payload);
    RunSnoc(step, Receiver(0, d, false), Packets(stop, payload), Timeout);
  }

  /** The data bursts alone decode to the bits of the message, with nothing pending. */
  lemma DataDecodes(message: string, one: int, zero: int, stop: int, payload: seq<Byte>)
    requires 0 < one && 0 < zero && 0 < stop && one != zero && one != stop && zero != stop
    ensures Decode(one, zero, stop, Encode(message, one, zero, payload, payload)) == Receiver(0, OnlyBits(message), false)
  {
    StepperClassifies(one, zero, stop, payload);
    RunEncode(Stepper(one, zero, stop), "", message, one, zero, payload, payload);
    assert "" + OnlyBits(message) == OnlyBits(message);
  }

  /**
    Round trip. With three positive, pairwise distinct burst sizes, the
    receiver decodes exactly the bits of the message sent, stops at the stop
    burst (once the sender falls silent, its socket times out), and reads
    nothing of whatever arrives afterwards.
   */
  lemma {:induction false} RoundTrip(message: string, one: int, zero: int, stop: int, payload: seq<Byte>, rest: seq<Event>)
    requires 0 < one && 0 < zero && 0 < stop && one != zero && one != stop && zero != stop
    ensures Decode(one, zero, stop, Transmission(message, one, zero, stop, payload) + [Timeout] + rest)
         == Receiver(0, OnlyBits(message), true)
    ensures IsBitString(message) ==>
      Decode(one, zero, stop, Transmission(message, one, zero, stop, payload) + [Timeout] + rest).decodedMessage == message
    ensures IsBitString(Decode(one, zero, stop, Transmission(message, one, zero, stop, payload) + [Timeout] + rest).decodedMessage)
    ensures |Decode(one, zero, stop, Transmission(message, one, zero, stop, payload) + [Timeout] + rest).decodedMessage| <= |message|
  {
    var step := Stepper(one, zero, stop);
    var bits := Encode(message, one, zero, payload, payload);
    var tail := Packets(stop, payload) + [Timeout];
    var decoded := OnlyBits(message);
    assert Transmission(message, one, zero, stop, payload) + [Timeout] == bits + tail;
    calc {
      Run(step, Listening, bits + tail);
      { RunConcat(step, Listening, bits, tail); }
      Run(step, Run(step, Listening, bits), tail);
      { DataDecodes(message, one, zero, stop, payload); }
      Run(step, Receiver(0, decoded, false), tail);
      { StopBurstEnds(one, zero, stop, payload, decoded); }
      Receiver(0, decoded, true);
    }
    RunAfterStop(step, Listening, bits + tail, rest);
    OnlyBitsIsBitString(message);
    if IsBitString(message) {
      OnlyBitsOfBitString(message);
    }
  }

  /**
    `send`: normalise the filler (raising `ValueError` before anything is
    sent), then one burst and one pause per character of the message, then
    the stop burst.
   */
  method Send(message: string, burstSizeOne: int, burstSizeZero: int, burstSizeStop: int, sendDumpData: Filler)
    returns (sent: Result<seq<Event>>)
    ensures Normalise(sendDumpData).Err? ==> sent == Err(Normalise(sendDumpData).error)
    ensures Normalise(sendDumpData).Ok? ==>
      sent == Ok(Transmission(message, burstSizeOne, burstSizeZero, burstSizeStop, Normalise(sendDumpData).value))
  {
    var normalised := Normalise(sendDumpData);
    if normalised.Err? {
      return Err(normalised.error);
    }
    var payload := normalised.value;
    var events: seq<Event> := [];
    var i := 0;
    while i < |message|
      invariant i <= |message|
      invariant events == Encode(message[..i], burstSizeOne, burstSizeZero, payload, payload)
    {
      var bit := message[i];
      if bit == '1' {
        events := SendBurst(events, burstSizeOne, payload);
      } else if bit == '0' {
        events := SendBurst(events, burstSizeZero, payload);
      }
      events := events + [Timeout];
      assert message[..i + 1][..i] == message[..i];
      i := i + 1;
    }
    assert message[..i] == message;
    events := SendBurst(events, burstSizeStop, payload);
    sent := Ok(events);
  }

  /**
    `receive`: the loop `while not stop_received` over the arriving traffic,
    then the decoded bits read as text. Reception stops at the first event
    that sets `stop_received`; when the traffic runs out first, the receiver
    is still waiting (`stopReceived` is false).
   */
  method Receive(events: seq<Event>, burstSizeOne: int, burstSizeZero: int, burstSizeStop: int,
                 convert: seq<char> -> char)
    returns (decodedMessage: string, decodedString: string, consumed: nat, stopReceived: bool)
    ensures consumed <= |events|
    ensures decodedMessage == Decode(burstSizeOne, burstSizeZero, burstSizeStop, events).decodedMessage
    ensures stopReceived == Decode(burstSizeOne, burstSizeZero, burstSizeStop, events).stopReceived
    ensures !stopReceived ==> consumed == |events|
    ensures stopReceived ==> Decode(burstSizeOne, burstSizeZero, burstSizeStop, events[..consumed]).stopReceived
    ensures forall k :: 0 <= k < consumed ==>
      !Decode(burstSizeOne, burstSizeZero, burstSizeStop, events[..k]).stopReceived
    ensures decodedString == TextOf(decodedMessage, convert)
  {
    ghost var step := Stepper(burstSizeOne, burstSizeZero, burstSizeStop);
    decodedMessage := "";
    var burstCount: nat := 0;
    stopReceived := false;
    consumed := 0;
    while !stopReceived && consumed < |events|
      invariant consumed <= |events|
      invariant Receiver(burstCount, decodedMessage, stopReceived)
             == Decode(burstSizeOne, burstSizeZero, burstSizeStop, events[..consumed])
      invariant forall k :: 0 <= k < consumed ==>
        !Decode(burstSizeOne, burstSizeZero, burstSizeStop, events[..k]).stopReceived
      decreases |events| - consumed
    {
      match events[consumed] {
        case Packet(_) =>
          burstCount := burstCount + 1;
        case Timeout =>
          if burstCount == burstSizeOne {
            decodedMessage := decodedMessage + "1";
          } else if burstCount == burstSizeZero {
            decodedMessage := decodedMessage + "0";
          } else if burstCount == burstSizeStop {
            stopReceived := true;
          }
          burstCount := 0;
      }
      RunSnoc(step, Listening, events[..consumed], events[consumed]);
      assert events[..consumed + 1] == events[..consumed] + [events[consumed]];
      consumed := consumed + 1;
    }
    if stopReceived {
      RunAfterStop(step, Listening, events[..consumed], events[consumed..]);
      assert events[..consumed] + events[consumed..] == events;
    } else {
      assert events[..consumed] == events;
    }
    decodedString := BinaryToString(decodedMessage, convert);
  }
}
