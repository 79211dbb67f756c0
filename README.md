# Fixed-burst-size UDP covert channel, modelled in Dafny

The repository hides a bit string in UDP traffic: the payloads are filler,
and each bit is carried by how many packets arrive in one burst. The sender
emits a burst per bit and pauses between bursts. The receiver counts the
packets of a burst and classifies the count when its socket times out
during the pause. Two versions of the channel exist, and both are modelled:

- `code/MainCode.py`: every packet carries the same filler (`send_dump_data`):
  one byte normalised from an integer or a "0b…"/"0x…" string, or a bytes
  value of any length passed through unchanged. A '1', a '0' and the final
  stop signal are three burst sizes. The receiver stops at the first burst
  whose size is the stop size and matches neither data size; when the stop
  size equals a data size, that burst decodes as a bit instead.
- `code/MyCovertChannel.py`: packets carry b"1", b"0" or b"STOP". The message
  ends with `burst_size_zero + 1` b"STOP" packets, and the receiver stops at
  the first of them. The burst sizes and the delay are stored in fields of
  the channel object.

Sockets, sleeps and timeouts are replaced by a sequence of events
(`Burst.Event`): the arrival of a packet with its payload, or one receive
timeout. The sender's pause after a burst is one `Timeout`. Each receive
loop is a method over such a sequence. It is proved against a pure step
function (`Step`) folded over the events (`Burst.Run`), and the round trips
are proved about those functions.

Files:

- `burst.dfy` (module `Burst`): events, the receive-loop state, bursts, the
  bit loop shared by both senders, and the generic facts about running a
  receiver over a stream.
- `bit_text.dfy` (module `BitText`): `binary_to_string`. It is identical in
  both files and is modelled once.
- `dump_data.dfy` (module `DumpData`): the normalisation of `send_dump_data`.
- `main_code.dfy` (module `MainCode`): the single-payload channel.
- `my_covert_channel.dfy` (module `MyCovertChannel`): the labelled-payload
  channel and its `Channel` class.

## Model

| member | source | states |
|---|---|---|
| `Burst.PacketsShape` | code/MainCode.py:82-83 | a burst has exactly as many packets as `range(n)` iterates (none when n ≤ 0), and every one carries the payload |
| `Burst.SendBurst` | code/MainCode.py:82-83 | appends exactly as many packets as `range(n)` iterates (none when n ≤ 0), all with the given payload, after what was already sent |
| `Burst.RunConcat` | code/MainCode.py:132-160 | the receive loop carries its state across the stream: running over `a + b` is running over `a`, then over `b` from where it stopped |
| `Burst.RunAfterStop` | code/MainCode.py:132 | once `stop_received` is set, no later event changes the receiver's state |
| `Burst.RunAppendsOnly` | code/MainCode.py:142-158 | if every step only appends to `decoded_message`, so does a whole run |
| `Burst.RunPackets` | code/MyCovertChannel.py:137 | a burst of n counted packets raises `burst_count` by exactly n (by 0 when n is negative) |
| `Burst.RunEncode` | code/MainCode.py:79-90 | the bit loop of either sender, read by a receiver that classifies data bursts correctly, decodes to exactly the '0'/'1' characters of the message, in order, with the count back at 0 |
| `Burst.OnlyBitsOfBitString` | code/MainCode.py:79-87 | a message made only of '0' and '1' loses nothing when only bit characters produce bursts |
| `Burst.OnlyBitsIsBitString` | code/MyCovertChannel.py:61-71 | the bits a receiver can recover are only '0'/'1' characters and never more than the message's characters; both round trips use it to bound what is decoded |
| `BitText.BinaryToString` | code/MainCode.py:17-22 | the accumulating loop that steps through the bits eight at a time returns exactly `TextOf` of its input |
| `BitText.TextOfLength` | code/MyCovertChannel.py:17-22 | the text has ⌊len(bits)/8⌋ characters |
| `BitText.TextOfAt` | code/MainCode.py:18-21 | character k is `convert_eight_bits_to_character` of bits 8k up to 8k+8, in order |
| `BitText.TextOfConcat` | code/MyCovertChannel.py:18-21 | text of a whole number of bytes followed by more bits is the two texts joined |
| `BitText.TextOfDropsTail` | code/MainCode.py:20 | an incomplete trailing group of fewer than 8 bits contributes nothing |
| `DumpData.Normalise` | code/MainCode.py:53-63 | an integer filler becomes the one byte with its value exactly when it lies in 0..255, else `ValueError`; a string starting with neither "0b" nor "0x" raises `ValueError`; a string filler that succeeds is one byte; a bytes filler is kept as it is (the value and the errors of a prefixed string are stated by `StrFillerValue` and `StrFillerMalformed`) |
| `DumpData.StrFillerValue` | code/MainCode.py:57-61 | "0b"/"0x", well-formed digits and any trailing whitespace normalise to the one byte the digits denote, or raise `ValueError` with that value when it exceeds 255 |
| `DumpData.StrFillerMalformed` | code/MainCode.py:57-61 | a prefixed string whose rest is not well-formed digits followed by whitespace raises `ValueError` for that base |
| `DumpData.LeadingZero` | code/MainCode.py:59-61 | a leading zero never changes the value `int` reads; with digits after it, the literal is accepted with the zero exactly when it is accepted without, and a lone zero is accepted where nothing is not |
| `DumpData.Underscore` | code/MainCode.py:59-61 | an underscore is skipped in the value, and one between two digits (or right after the prefix) keeps the literal acceptable |
| `DumpData.UpperCaseValue` | code/MainCode.py:61 | hex digits in upper case read as the same value, and the literal is accepted in upper case exactly when it is accepted as written |
| `DumpData.DigitsRoundTrip` | code/MainCode.py:59-61 | the digits of n in base 2 or 16 are a literal `int` accepts, and they denote n |
| `DumpData.FillerRoundTrip` | code/MainCode.py:53-61 | every byte b is normalised back to `[b]` from the integer b, from "0b" followed by its binary digits and from "0x" followed by its hex digits |
| `MainCode.Step` | code/MainCode.py:138-158 | a packet of any content adds 1 to the count; a timeout resets it to 0 and appends at most one bit: '1' when the count is `burst_size_one`, else '0' when it is `burst_size_zero`; it sets `stop_received` exactly when the count is `burst_size_stop` and neither data size, and then appends nothing |
| `MainCode.DecodeAppendsOnly` | code/MainCode.py:144-149 | what has been decoded from a prefix of the traffic stays a prefix of what is decoded later |
| `MainCode.StopBurstEnds` | code/MainCode.py:150-151 | with distinct positive sizes, a stop burst and the timeout after it end reception without appending a bit |
| `MainCode.RoundTrip` | code/MainCode.py:79-94 | with three positive, pairwise distinct sizes, decoding what `send` emits, followed by the silence after it and by any other traffic, yields exactly the message's bits (the message itself when it is a bit string), a bit string no longer than the message, and a stopped receiver |
| `MainCode.Send` | code/MainCode.py:53-94 | raises the normalisation's `ValueError` before sending anything; otherwise emits, per character in order, `burst_size_one` filler packets for '1', `burst_size_zero` for '0', none for anything else, each followed by a pause, then exactly `burst_size_stop` packets |
| `MainCode.Receive` | code/MainCode.py:126-169 | the loop's final bits and stop flag are those of the step function over the traffic; it stops at the first event after which `stop_received` holds and reads nothing beyond it, or reads everything and is still waiting; the logged string is `binary_to_string` of the bits |
| `MyCovertChannel.Step` | code/MyCovertChannel.py:130-152 | a b"STOP" packet sets `stop_received` without touching the count or the bits; any other packet adds 1 to the count; a timeout resets the count and appends '1' when it equals `burst_size_one`, else '0' when it equals `burst_size_zero`, else nothing; a timeout with nothing pending changes nothing when both sizes are non-zero |
| `MyCovertChannel.DecodeAppendsOnly` | code/MyCovertChannel.py:139-152 | what has been decoded from a prefix of the traffic stays a prefix of what is decoded later |
| `MyCovertChannel.StopPacketEnds` | code/MyCovertChannel.py:130-134 | a b"STOP" packet ends reception at once: the pending burst is not classified and nothing after the packet is read |
| `MyCovertChannel.StopBurstEnds` | code/MyCovertChannel.py:77-78 | a stop burst of at least one packet stops the receiver, leaving count and bits as they were |
| `MyCovertChannel.RoundTrip` | code/MyCovertChannel.py:61-78 | with positive, distinct sizes for '1' and '0', decoding what `send` emits, followed by any other traffic, yields exactly the message's bits (the message itself when it is a bit string), a bit string no longer than the message, and a stopped receiver |
| `MyCovertChannel.Channel.Send` | code/MyCovertChannel.py:44-78 | stores both burst sizes and the delay in the object's fields, then emits `burst_size_one` b"1" packets per '1', `burst_size_zero` b"0" packets per '0', none for other characters, a pause after each, and `burst_size_zero + 1` b"STOP" packets; the stop-size argument plays no part |
| `MyCovertChannel.Channel.Receive` | code/MyCovertChannel.py:105-163 | stores the parameters in the fields; the loop's bits and stop flag are those of the step function over the traffic; it stops at the first b"STOP" packet and reads nothing beyond it, or reads everything and is still waiting; the logged string is `binary_to_string` of the bits |

## Left out

- Sockets (`socket`, `bind`, `sendto`, `recvfrom`, `close`), `settimeout(delay_between_bursts / 2)` and the `is_timeout_set` flag: I/O. Arrivals and timeouts are an event sequence given to the receive methods; the sender returns the events it emits.
- Timing: `time.sleep`, `time.time()` and the timestamp-modulo-256 lines of the single-payload sender are wall-clock or debug output. Which silences the receiver's socket turns into timeouts, and any loss or reordering of packets, are fixed by the event sequence, not derived.
- `recvfrom(1024)` truncates datagrams longer than 1024 bytes; the model compares whole payloads.
- `generate_random_binary_message_with_logging` and `log_message` belong to the channel base class: the message is a parameter of `Send`, and the string that would be logged is returned by `Receive`.
- `convert_eight_bits_to_character` belongs to the channel base class: it is a function parameter of type `seq<char> -> char`, so it is assumed to yield one character per group.
- The `except Exception` / `finally` handling and all debug printing. An exception raised by `sendto` part-way through a burst would cut the transmission short; the model sends everything.
- Silence is an unbounded run of `Timeout` events: the socket times out every `delay_between_bursts / 2` seconds, and each timeout classifies a zero count (appending a bit when a data size is 0, and in code/MainCode.py stopping when `burst_size_stop` is 0 and neither data size is 0). A finite event sequence is a finite prefix of that traffic; when it runs out before the stop signal, the receive methods return with `stopReceived` false after reading every event.
- DumpData.Normalise: does not accept the Unicode digits and the Unicode whitespace beyond the six ASCII whitespace characters that Python's `int()` also accepts; a `bool` filler (a Python `int`) and filler values of other types, which would fail inside `sendto`, are not modelled.
- code/generate_submission.py: packaging of files into an archive through library and filesystem calls.
- Only the two fixed-burst-size channels, code/MainCode.py and code/MyCovertChannel.py, are modelled.
