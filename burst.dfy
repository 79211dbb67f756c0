/**
  Packet traffic as the fixed-burst-size covert channels see it.

  A sender turns every message bit into a burst of packets followed by a
  pause; the receiver counts the packets of a burst and classifies the count
  when its socket times out. Sockets, sleeps and socket timeouts are replaced
  by a sequence of abstract events: the arrival of one packet, or one
  receive timeout (a silence long enough to end a burst).
 */
module Burst {

  type Byte = b: int | 0 <= b < 256

  /** What the receiving socket observes, in arrival order. */
  datatype Event = Packet(payload: seq<Byte>) | Timeout

  /** The local state of a receive loop: `burst_count`, `decoded_message`, `stop_received`. */
  datatype Receiver = Receiver(burstCount: nat, decodedMessage: string, stopReceived: bool)

  /** The state a receive loop starts in. */
  const Listening := Receiver(0, "", false)

  /** Number of iterations of Python's `range(n)`: none when `n` is negative. */
  function Count(n: int): nat
  {
    if n < 0 then 0 else n
  }

  /** `n` packets carrying `payload`, as sent by `for _ in range(n): sendto(payload)`. */
  function Packets(n: int, payload: seq<Byte>): seq<Event>
    decreases Count(n)
  {
    if n <= 0 then [] else Packets(n - 1, payload) + [Packet(payload)]
  }

  /** A burst is exactly as many packets as `range(n)` iterates, each carrying the payload. */
  lemma {:induction false} PacketsShape(n: int, payload: seq<Byte>)
    ensures |Packets(n, payload)| == Count(n)
    ensures forall k :: 0 <= k < |Packets(n, payload)| ==> Packets(n, payload)[k] == Packet(payload)
    decreases Count(n)
  {
    if n > 0 {
      PacketsShape(n - 1, payload);
    }
  }

  /** The burst a sender emits for one character of its message: nothing for a character other than '1' or '0'. */
  function BitBurst(bit: char, one: int, zero: int, payloadOne: seq<Byte>, payloadZero: seq<Byte>): seq<Event>
  {
    if bit == '1' then Packets(one, payloadOne)
    else if bit == '0' then Packets(zero, payloadZero)
    else []
  }

  /** The bit loop of a sender: per character, its burst and then the pause before the next burst. */
  function Encode(message: string, one: int, zero: int, payloadOne: seq<Byte>, payloadZero: seq<Byte>): seq<Event>
  {
    if message == [] then []
    else
      var n := |message| - 1;
      Encode(message[..n], one, zero, payloadOne, payloadZero)
      + BitBurst(message[n], one, zero, payloadOne, payloadZero) + [Timeout]
  }

  /** The characters of `message` that are '0' or '1', in order. */
  function OnlyBits(message: string): string
  {
    if message == [] then []
    else
      var n := |message| - 1;
      OnlyBits(message[..n]) + (if message[n] == '0' || message[n] == '1' then [message[n]] else [])
  }

  ghost predicate IsBitString(message: string)
  {
    forall k :: 0 <= k < |message| ==> message[k] == '0' || message[k] == '1'
  }

  /** A bit string is its own bits. */
  lemma {:induction false} OnlyBitsOfBitString(message: string)
    requires IsBitString(message)
    ensures OnlyBits(message) == message
  {
    if message != [] {
      var n := |message| - 1;
      assert IsBitString(message[..n]);
      OnlyBitsOfBitString(message[..n]);
      assert message[..n] + [message[n]] == message;
    }
  }

  /** Only bits are kept, so the result is a bit string no longer than the message. */
  lemma {:induction false} OnlyBitsIsBitString(message: string)
    ensures IsBitString(OnlyBits(message)) && |OnlyBits(message)| <= |message|
  {
    if message != [] {
      OnlyBitsIsBitString(message[..|message| - 1]);
    }
  }

  /**
    The receive loop `while not stop_received`, driven by `step` for each event.
    It ends early once the stop signal is received; events after that are not read.
   */
  function Run(step: (Receiver, Event) -> Receiver, s: Receiver, events: seq<Event>): Receiver
    decreases |events|
  {
    if events == [] || s.stopReceived then s
    else Run(step, step(s, events[0]), events[1..])
  }

  /** Running over two streams one after the other is running over their concatenation. */
  lemma {:induction false} RunConcat(step: (Receiver, Event) -> Receiver, s: Receiver, a: seq<Event>, b: seq<Event>)
    ensures Run(step, s, a + b) == Run(step, Run(step, s, a), b)
    decreases |a|
  {
    if a == [] {
      assert a + b == b;
    } else if !s.stopReceived {
      assert (a + b)[0] == a[0];
      assert (a + b)[1..] == a[1..] + b;
      RunConcat(step, step(s, a[0]), a[1..], b);
    }
  }

  /** One more event: applied unless the stop signal has already been received. */
  lemma RunSnoc(step: (Receiver, Event) -> Receiver, s: Receiver, a: seq<Event>, e: Event)
    ensures Run(step, s, a + [e]) ==
      (var t := Run(step, s, a); if t.stopReceived then t else step(t, e))
  {
    RunConcat(step, s, a, [e]);
  }

  /** Stop is terminal: once received, nothing that arrives afterwards changes the state. */
  lemma RunAfterStop(step: (Receiver, Event) -> Receiver, s: Receiver, a: seq<Event>, rest: seq<Event>)
    requires Run(step, s, a).stopReceived
    ensures Run(step, s, a + rest) == Run(step, s, a)
  {
    RunConcat(step, s, a, rest);
  }

  /** Every step keeps the decoded message as a prefix of the new one. */
  ghost predicate AppendsOnly(step: (Receiver, Event) -> Receiver)
  {
    forall t: Receiver, e: Event :: t.decodedMessage <= step(t, e).decodedMessage
  }

  /** The decoded message only ever grows at its end. */
  lemma {:induction false} RunAppendsOnly(step: (Receiver, Event) -> Receiver, s: Receiver, events: seq<Event>)
    requires AppendsOnly(step)
    ensures s.decodedMessage <= Run(step, s, events).decodedMessage
    decreases |events|
  {
    if events != [] && !s.stopReceived {
      var t := step(s, events[0]);
      RunAppendsOnly(step, t, events[1..]);
    }
  }

  /** A packet with this payload only increments the burst count. */
  ghost predicate CountsPacket(step: (Receiver, Event) -> Receiver, payload: seq<Byte>)
  {
    forall t: Receiver :: step(t, Packet(payload)) == t.(burstCount := t.burstCount + 1)
  }

  /** A burst of counted packets adds its size to the burst count. */
  lemma {:induction false} RunPackets(step: (Receiver, Event) -> Receiver, s: Receiver, n: int, payload: seq<Byte>)
    requires CountsPacket(step, payload) && !s.stopReceived
    ensures Run(step, s, Packets(n, payload)) == s.(burstCount := s.burstCount + Count(n))
    decreases Count(n)
  {
    if n > 0 {
      RunPackets(step, s, n - 1, payload);
      RunSnoc(step, s, Packets(n - 1, payload), Packet(payload));
    }
  }

  /**
    A timeout after a burst of exactly `one` packets appends '1', after
    exactly `zero` packets appends '0', and after no packet at all changes
    nothing; each resets the count.
   */
  ghost predicate ClassifiesData(step: (Receiver, Event) -> Receiver, one: int, zero: int)
  {
    (forall d: string :: step(Receiver(Count(one), d, false), Timeout) == Receiver(0, d + "1", false)) &&
    (forall d: string :: step(Receiver(Count(zero), d, false), Timeout) == Receiver(0, d + "0", false)) &&
    (forall d: string :: step(Receiver(0, d, false), Timeout) == Receiver(0, d, false))
  }

  /** One burst and the timeout after it decode to the character's bit, if it is one. */
  lemma BurstThenTimeout(step: (Receiver, Event) -> Receiver, d: string, c: char,
                         one: int, zero: int, payloadOne: seq<Byte>, payloadZero: seq<Byte>)
    requires CountsPacket(step, payloadOne) && CountsPacket(step, payloadZero)
    requires ClassifiesData(step, one, zero)
    ensures Run(step, Receiver(0, d, false), BitBurst(c, one, zero, payloadOne, payloadZero) + [Timeout])
         == Receiver(0, d + (if c == '0' || c == '1' then [c] else []), false)
  {
    var s := Receiver(0, d, false);
    var burst := BitBurst(c, one, zero, payloadOne, payloadZero);
    RunSnoc(step, s, burst, Timeout);
    if c == '1' {
      RunPackets(step, s, one, payloadOne);
      assert Run(step, s, burst) == Receiver(Count(one), d, false);
    } else if c == '0' {
      RunPackets(step, s, zero, payloadZero);
      assert Run(step, s, burst) == Receiver(Count(zero), d, false);
    } else {
      assert burst == [];
    }
  }

  /**
    The bit loop and the receive loop agree: a receiver that counts data
    packets and classifies each burst at the following timeout decodes
    exactly the bits of the message, and is ready for the next burst.
   */
  lemma {:induction false} RunEncode(step: (Receiver, Event) -> Receiver, d: string, message: string,
                                     one: int, zero: int, payloadOne: seq<Byte>, payloadZero: seq<Byte>)
    requires CountsPacket(step, payloadOne) && CountsPacket(step, payloadZero)
    requires ClassifiesData(step, one, zero)
    ensures Run(step, Receiver(0, d, false), Encode(message, one, zero, payloadOne, payloadZero))
         == Receiver(0, d + OnlyBits(message), false)
  {
    if message != [] {
      var n := |message| - 1;
      var c := message[n];
      var prefix := Encode(message[..n], one, zero, payloadOne, payloadZero);
      var burst := BitBurst(c, one, zero, payloadOne, payloadZero);
      var mid := Receiver(0, d + OnlyBits(message[..n]), false);
      var appended: string := if c == '0' || c == '1' then [c] else [];
      calc {
        Run(step, Receiver(0, d, false), Encode(message, one, zero, payloadOne, payloadZero));
        { assert Encode(message, one, zero, payloadOne, payloadZero) == prefix + (burst + [Timeout]); }
        Run(step, Receiver(0, d, false), prefix + (burst + [Timeout]));
        { RunConcat(step, Receiver(0, d, false), prefix, burst + [Timeout]); }
        Run(step, Run(step, Receiver(0, d, false), prefix), burst + [Timeout]);
        { RunEncode(step, d, message[..n], one, zero, payloadOne, payloadZero); }
        Run(step, mid, burst + [Timeout]);
        { BurstThenTimeout(step, mid.decodedMessage, c, one, zero, payloadOne, payloadZero); }
        Receiver(0, d + OnlyBits(message[..n]) + appended, false);
        { assert d + OnlyBits(message[..n]) + appended == d + OnlyBits(message); }
        Receiver(0, d + OnlyBits(message), false);
      }
    } else {
      assert d + OnlyBits(message) == d;
    }
  }

  /** The inner loop of a sender, `for _ in range(n): sock.sendto(payload, ...)`, appending to what was sent. */
  method SendBurst(sent: seq<Event>, n: int, payload: seq<Byte>) returns (out: seq<Event>)
    ensures out == sent + Packets(n, payload)
  {
    out := sent;
    var j := 0;
    while j < n
      invariant j <= Count(n)
      invariant out == sent + Packets(j, payload)
    {
      out := out + [Packet(payload)];
      j := j + 1;
    }
  }
}
