/**
  The labelled-payload channel (code/MyCovertChannel.py). Packets of a '1'
  burst carry b"1", packets of a '0' burst carry b"0", and the message ends
  with `burst_size_zero + 1` packets carrying b"STOP". The receiver still
  decodes bits from burst sizes alone, but it recognises the stop signal by
  its payload and stops at the first such packet.
 */
module MyCovertChannel {
  import opened Burst
  import opened BitText

  /** b"1", b"0" and b"STOP" as bytes. */
  const OnePayload: seq<Byte> := [49]
  const ZeroPayload: seq<Byte> := [48]
  const StopPayload: seq<Byte> := [83, 84, 79, 80]

  /** Everything `send` transmits: the bit loop, then `burst_size_zero + 1` stop packets. */
  function Transmission(message: string, one: int, zero: int): seq<Event>
  {
    Encode(message, one, zero, OnePayload, ZeroPayload) + Packets(zero + 1, StopPayload)
  }

  /**
    One iteration of the receive loop. A b"STOP" packet ends reception as it
    arrives; any other packet is counted. A timeout appends '1' for a count
    equal to the size of a '1', else '0' for the size of a '0', else nothing.
   */
  function Step(one: int, zero: int, s: Receiver, e: Event): (r: Receiver)
    ensures e == Packet(StopPayload) ==>
      r.stopReceived && r.burstCount == s.burstCount && r.decodedMessage == s.decodedMessage
    ensures e.Packet? && e.payload != StopPayload ==>
      r.burstCount == s.burstCount + 1 && r.decodedMessage == s.decodedMessage && r.stopReceived == s.stopReceived
    ensures e.Timeout? ==> r.burstCount == 0 && r.stopReceived == s.stopReceived
    ensures s.decodedMessage <= r.decodedMessage && |r.decodedMessage| <= |s.decodedMessage| + 1
    ensures |r.decodedMessage| == |s.decodedMessage| + 1 <==>
      e.Timeout? && (s.burstCount == one || s.burstCount == zero)
    ensures |r.decodedMessage| == |s.decodedMessage| + 1 ==>
      r.decodedMessage[|s.decodedMessage|] == if s.burstCount == one then '1' else '0'
    ensures e.Timeout? && s.burstCount == 0 && one != 0 && zero != 0 ==> r == s
  {
    match e
    case Packet(data) =>
      if data == StopPayload then s.(stopReceived := true) else s.(burstCount := s.burstCount + 1)
    case Timeout =>
      if s.burstCount == one then s.(burstCount := 0, decodedMessage := s.decodedMessage + "1")
      else if s.burstCount == zero then s.(burstCount := 0, decodedMessage := s.decodedMessage + "0")
      else s.(burstCount := 0)
  }

  function Stepper(one: int, zero: int): (Receiver, Event) -> Receiver
  {
    (s, e) => Step(one, zero, s, e)
  }

  /** What the receive loop has made of `events`, starting from a fresh socket. */
  function Decode(one: int, zero: int, events: seq<Event>): Receiver
  {
    Run(Stepper(one, zero), Listening, events)
  }

  /** With positive, distinct sizes every data burst the sender makes is classified as intended. */
  lemma StepperClassifies(one: int, zero: int)
    requires 0 < one && 0 < zero && one != zero
    ensures CountsPacket(Stepper(one, zero), OnePayload)
    ensures CountsPacket(Stepper(one, zero), ZeroPayload)
    ensures ClassifiesData(Stepper(one, zero), one, zero)
  {
    var step := Stepper(one, zero);
    assert |OnePayload| != |StopPayload| && |ZeroPayload| != |StopPayload|;
    forall t: Receiver
      ensures step(t, Packet(OnePayload)) == t.(burstCount := t.burstCount + 1)
      ensures step(t, Packet(ZeroPayload)) == t.(burstCount := t.burstCount + 1)
    {
    }
    forall d: string
      ensures step(Receiver(Count(one), d, false), Timeout) == Receiver(0, d + "1", false)
      ensures step(Receiver(Count(zero), d, false), Timeout) == Receiver(0, d + "0", false)
      ensures step(Receiver(0, d, false), Timeout) == Receiver(0, d, false)
    {
    }
  }

  /** The decoded message only grows at its end: what was decoded from a prefix of the traffic is kept. */
  lemma DecodeAppendsOnly(one: int, zero: int, a: seq<Event>, b: seq<Event>)
    ensures Decode(one, zero, a).decodedMessage <= Decode(one, zero, a + b).decodedMessage
  {
    var step := Stepper(one, zero);
    RunConcat(step, Listening, a, b);
    RunAppendsOnly(step, Decode(one, zero, a), b);
  }

  /**
    A b"STOP" packet ends reception at once: the pending burst is neither
    counted further nor classified, and nothing after the packet is read.
   */
  lemma StopPacketEnds(one: int, zero: int, a: seq<Event>, rest: seq<Event>)
    requires !Decode(one, zero, a).stopReceived
    ensures Decode(one, zero, a + [Packet(StopPayload)] + rest)
         == Decode(one, zero, a).(stopReceived := true)
  {
    var step := Stepper(one, zero);
    RunSnoc(step, Listening, a, Packet(StopPayload));
    RunAfterStop(step, Listening, a + [Packet(StopPayload)], rest);
  }

  /** A stop burst of at least one packet ends reception, leaving the decoded bits as they were. */
  lemma {:induction false} StopBurstEnds(one: int, zero: int, s: Receiver, n: int)
    requires !s.stopReceived && n >= 1
    ensures Run(Stepper(one, zero), s, Packets(n, StopPayload)) == s.(stopReceived := true)
    decreases n
  {
    var step := Stepper(one, zero);
    if n == 1 {
      assert Packets(n, StopPayload) == [] + [Packet(StopPayload)];
      RunSnoc(step, s, [], Packet(StopPayload));
    } else {
      StopBurstEnds(one, zero, s, n - 1);
      RunAfterStop(step, s, Packets(n - 1, StopPayload), [Packet(StopPayload)]);
    }
  }

  /** The data bursts alone decode to the bits of the message, with nothing pending. */
  lemma DataDecodes(message: string, one: int, zero: int)
    requires 0 < one && 0 < zero && one != zero
    ensures Decode(one, zero, Encode(message, one, zero, OnePayload, ZeroPayload)) == Receiver(0, OnlyBits(message), false)
  {
    StepperClassifies(one, zero);
    RunEncode(Stepper(one, zero), "", message, one, zero, OnePayload, ZeroPayload);
    assert "" + OnlyBits(message) == OnlyBits(message);
  }

  /**
    Round trip. With positive, distinct sizes for '1' and '0', the receiver
    decodes exactly the bits of the message sent, stops at the first b"STOP"
    packet, and reads nothing of whatever arrives afterwards.
   */
  lemma {:induction false} RoundTrip(message: string, one: int, zero: int, rest: seq<Event>)
    requires 0 < one && 0 < zero && one != zero
    ensures Decode(one, zero, Transmission(message, one, zero) + rest) == Receiver(0, OnlyBits(message), true)
    ensures IsBitString(message) ==> Decode(one, zero, Transmission(message, one, zero) + rest).decodedMessage == message
    ensures IsBitString(Decode(one, zero, Transmission(message, one, zero) + rest).decodedMessage)
    ensures |Decode(one, zero, Transmission(message, one, zero) + rest).decodedMessage| <= |message|
  {
    var step := Stepper(one, zero);
    var bits := Encode(message, one, zero, OnePayload, ZeroPayload);
    var tail := Packets(zero + 1, StopPayload);
    var decoded := OnlyBits(message);
    assert Transmission(message, one, zero) == bits + tail;
    calc {
      Run(step, Listening, bits + tail);
      { RunConcat(step, Listening, bits, tail); }
      Run(step, Run(step, Listening, bits), tail);
      { DataDecodes(message, one, zero); }
      Run(step, Receiver(0, decoded, false), tail);
      { StopBurstEnds(one, zero, Receiver(0, decoded, false), zero + 1); }
      Receiver(0, decoded, true);
    }
    RunAfterStop(step, Listening, bits + tail, rest);
    OnlyBitsIsBitString(message);
    if IsBitString(message) {
      OnlyBitsOfBitString(message);
    }
  }

  /** The channel object; `send` and `receive` store their parameters in its fields before using them. */
  class Channel {
    var burstSizeOne: int
    var burstSizeZero: int
    var delayBetweenBursts: real

    /**
      `send`: record the parameters, then one burst and one pause per
      character of the message, then the stop packets. The stop size
      argument is accepted and never read.
     */
    method Send(message: string, burstSizeOne: int, burstSizeZero: int, burstStopSize: int, delayBetweenBursts: real)
      returns (sent: seq<Event>)
      modifies this
      ensures this.burstSizeOne == burstSizeOne && this.burstSizeZero == burstSizeZero
      ensures this.delayBetweenBursts == delayBetweenBursts
      ensures sent == Transmission(message, burstSizeOne, burstSizeZero)
    {
      this.burstSizeOne := burstSizeOne;
      this.burstSizeZero := burstSizeZero;
      this.delayBetweenBursts := delayBetweenBursts;
      sent := [];
      var i := 0;
      while i < |message|
        invariant i <= |message|
        invariant this.burstSizeOne == burstSizeOne && this.burstSizeZero == burstSizeZero
        invariant this.delayBetweenBursts == delayBetweenBursts
        invariant sent == Encode(message[..i], this.burstSizeOne, this.burstSizeZero, OnePayload, ZeroPayload)
      {
        var bit := message[i];
        if bit == '1' {
          sent := SendBurst(sent, this.burstSizeOne, OnePayload);
        } else if bit == '0' {
          sent := SendBurst(sent, this.burstSizeZero, ZeroPayload);
        }
        sent := sent + [Timeout];
        assert message[..i + 1][..i] == message[..i];
        i := i + 1;
      }
      assert message[..i] == message;
      sent := SendBurst(sent, this.burstSizeZero + 1, StopPayload);
    }

    /**
      `receive`: record the parameters, run the loop `while not stop_received`
      over the arriving traffic, then read the decoded bits as text, which is
      what gets logged. Reception stops at the first event that sets
      `stop_received`; when the traffic runs out first, the receiver is still
      waiting (`stopReceived` is false).
     */
    method Receive(events: seq<Event>, burstSizeOne: int, burstSizeZero: int, burstStopSize: int,
                   delayBetweenBursts: real, convert: seq<char> -> char)
      returns (decodedMessage: string, decodedString: string, consumed: nat, stopReceived: bool)
      modifies this
      ensures this.burstSizeOne == burstSizeOne && this.burstSizeZero == burstSizeZero
      ensures this.delayBetweenBursts == delayBetweenBursts
      ensures consumed <= |events|
      ensures decodedMessage == Decode(burstSizeOne, burstSizeZero, events).decodedMessage
      ensures stopReceived == Decode(burstSizeOne, burstSizeZero, events).stopReceived
      ensures !stopReceived ==> consumed == |events|
      ensures stopReceived ==> Decode(burstSizeOne, burstSizeZero, events[..consumed]).stopReceived
      ensures forall k :: 0 <= k < consumed ==> !Decode(burstSizeOne, burstSizeZero, events[..k]).stopReceived
      ensures decodedString == TextOf(decodedMessage, convert)
    {
      this.burstSizeOne := burstSizeOne;
      this.burstSizeZero := burstSizeZero;
      this.delayBetweenBursts := delayBetweenBursts;
      ghost var step := Stepper(burstSizeOne, burstSizeZero);
      decodedMessage := "";
      var burstCount: nat := 0;
      stopReceived := false;
      consumed := 0;
      while !stopReceived && consumed < |events|
        invariant consumed <= |events|
        invariant this.burstSizeOne == burstSizeOne && this.burstSizeZero == burstSizeZero
        invariant this.delayBetweenBursts == delayBetweenBursts
        invariant Receiver(burstCount, decodedMessage, stopReceived)
               == Decode(burstSizeOne, burstSizeZero, events[..consumed])
        invariant forall k :: 0 <= k < consumed ==> !Decode(burstSizeOne, burstSizeZero, events[..k]).stopReceived
        decreases |events| - consumed
      {
        match events[consumed] {
          case Packet(data) =>
            if data == StopPayload {
              stopReceived := true;
            } else {
              burstCount := burstCount + 1;
            }
          case Timeout =>
            if burstCount == this.burstSizeOne {
              decodedMessage := decodedMessage + "1";
            } else if burstCount == this.burstSizeZero {
              decodedMessage := decodedMessage + "0";
            }
            burstCount := 0;
        }
        RunSnoc(step, Listening, events[..consumed], events[consumed]);
        assert events[..consumed + 1] == events[..consumed] + [events[consumed]];
        consumed := consumed + 1;
      }
      if stopReceived {
        RunAfterStop(step, Listening, events[..consumed], events[consumed..]);
        assert events[..consumed] + events[consumed..] == events;
      } else {
        assert events[..consumed] == events;
      }
      decodedString := BinaryToString(decodedMessage, convert);
    }
  }
}
