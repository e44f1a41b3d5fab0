# JsonSerialPort, modelled in Dafny

This project models `JsonSerialPort` from `json_serial.py`: the class that a
test fixture uses to send a JSON request over a serial line and to cut a JSON
reply out of whatever bytes come back.

- A request is serialised with `json.dumps`, followed by CR LF and encoded
  as UTF-8 (`dicttobyte`). It is sent as one write.
- Replies are read chunk by chunk (`read_str`). This happens in at most
  `ticks` polls, the model's whole number standing for `timeout / 0.1`
  (see "## Left out"). When a chunk is not valid UTF-8, only its bytes
  below 127 are kept.
- Each chunk is appended to a text buffer that outlives the call. After each
  append, `get_next_json` takes the text from the first `{` to the last `}`
  of the whole buffer and tries to parse it.
  - On success, everything up to that `}` is dropped.
  - On failure, the buffer is left to grow.
- `full_one_cycle`, `several_cycles` and `full_one_cycle_with_key` wrap this
  in an open / write / poll / close transaction.
  - `full_one_cycle_with_key` lower-cases the reply first, then looks up a
    key.

The files:

- `wrappers.dfy`: `Option`.
- `text.dfy` (module `Text`):
  - the ASCII salvage of `read_str`;
  - UTF-8 encoding, as in section 3 of RFC 3629;
  - `str.lower` on ASCII letters.
- `framing.dfy` (module `Framing`): `str.index`, `str.rindex` and one
  extraction attempt of `get_next_json`.
- `transport.dfy` (module `Transport`): the pyserial handle and the device
  behind it.
  - The device's replies are a queue of byte chunks. Each `readall` pops one
    chunk, or yields nothing once the queue is empty.
  - Its outgoing bytes are recorded.
  - Whether it opens and closes, and what a write reports, are fixed
    behaviour.
- `json_serial.dfy` (module `JsonSerial`), in two layers:
  - a specification layer, with one function per operation from the old port
    state to the outcome and the new state;
  - the class `JsonSerialPort`. Its fields are `ser`, `buf` and `error`, and
    its methods do the work in place. `read_str` has the salvage `for` loop
    and `get_next_json` has the `while` poll loop. Each method is proved to
    end in the state its specification function gives.
- `json_serial_properties.dfy` (module `JsonSerialProperties`): the
  properties, proved over the specification layer.

Outside collaborators become parameters of the model:

- `json.loads`, `json.dumps` and `bytes.decode('utf-8')` are oracles,
  held in a `Codec` value.
  - The empty text never parses.
  - JSON values are a type parameter `V`.
- Time is counted in ticks of 0.1 s.
- Python exceptions that escape a method become the outcome `Raise`:
  - `AttributeError` on a handle that is still `None`;
  - pyserial's `PortNotOpenError`;
  - `KeyError`;
  - `JSONDecodeError` from the lookup's own parse.

Where the code differs from what a reader of the method names and docstrings would expect, the
model follows the code:

- The last `}` is searched over the whole buffer, not only after the first
  `{`. If it comes first, nothing is extracted (`ClosingBeforeOpening`).
- A failed open does not end a transaction.
  - On a fresh port the following `write` reads a handle that is still
    `None` and raises. The open error text is also wiped, because `write`
    clears `error` (`FreshPortWithoutDevice`).
  - On a port whose old handle is closed, the first read raises.
- `close` clears `error`, so "no json found" does not survive
  `full_one_cycle`.
- The key lookup tests the lower-cased key but fetches the key as given.
  The key `"5vV"` used by the 5 V measurement therefore raises `KeyError`
  (`MixedCaseKeyRaises`).
- The buffer is cleared only by `flush_input`. Text left after a frame
  carries over to the next transaction on the same port
  (`ResidueAfterFrame`, `OneCycleOnWorkingDevice`).

## Model

| member | source | states |
|---|---|---|
| `Text.Chr` | json_serial.py:77 | `chr(b)` of a byte below 127 is the character with that code |
| `Text.Salvage` | json_serial.py:73-77 | the salvaged text is no longer than the reply and holds only characters below 127 |
| `Text.SalvageAppend` | json_serial.py:75-77 | salvaging a concatenation salvages each part, so the kept bytes stay in order |
| `Text.SalvageKeepsAscii` | json_serial.py:75-77 | a reply with no byte of 127 or more is kept whole, byte for character |
| `Text.SalvageWholeIff` | json_serial.py:75-79 | the salvage loses nothing exactly when no byte of 127 or more is present |
| `Text.DropsByteSnoc` | json_serial.py:78-79 | a dropped byte is seen one byte at a time: the extended reply drops a byte iff the prefix did or the new byte is 127 or more |
| `Text.LowerChar` | json_serial.py:192 | lower-casing a character yields no upper-case letter; an upper-case letter becomes its lower-case letter (code + 32), anything else is unchanged |
| `Text.Lower` | json_serial.py:192-193 | lower-casing keeps the length of the text |
| `Text.LowerHasNoUpper` | json_serial.py:192 | a lower-cased reply contains no upper-case letter |
| `Text.LowerFixedIff` | json_serial.py:193 | lower-casing leaves a key unchanged exactly when it has no upper-case letter |
| `Text.EncodeChar` | json_serial.py:13 | one character encodes to 1 to 4 bytes, and to a single byte with its own code exactly when it is ASCII |
| `Text.Encode` | json_serial.py:13 | an encoding is at least as long as its text |
| `Text.EncodeAppend` | json_serial.py:13 | encoding a concatenation encodes each part |
| `Text.EncodeAscii` | json_serial.py:13 | an ASCII text encodes to one byte per character, with its code |
| `Framing.FirstIndexOf` | json_serial.py:101-102 | `buf.index('{')` is the position of the first `{`, and there is none exactly when `'{' in buf` is false |
| `Framing.LastIndexOf` | json_serial.py:104-105 | `buf.rindex('}')` is the position of the last `}`, and there is none exactly when `'}' in buf` is false |
| `Framing.ExtractFound` | json_serial.py:101-110 | with the first `{` at s, the last `}` at e, s <= e and buf[s..e] valid, the frame is exactly buf[s..e] and the new buffer exactly buf[e+1..] |
| `Framing.ExtractSucceedsIff` | json_serial.py:101-112 | an attempt succeeds iff there is a first `{`, a last `}` at or after it, and the text between them parses |
| `Framing.ExtractParts` | json_serial.py:102-109 | a successful attempt consists of the first `{`, the last `}`, the parsed slice between them and the text after the `}` |
| `Framing.SplitAround` | json_serial.py:102-109 | cutting the buffer at its first `{` and last `}` gives noise without `{`, a slice that opens with `{` and closes with `}`, and a rest without `}` |
| `Framing.ExtractShape` | json_serial.py:102-109 | a frame opens with `{`, closes with `}` and parses; the rest has no `}`; the buffer is noise without `{`, then the frame, then the rest |
| `JsonSerialProperties.ExtractSplit` | json_serial.py:101-110 | conversely, noise without `{`, a well-shaped valid frame and a rest without `}` give exactly that frame and that rest |
| `JsonSerialProperties.NoiseBeforeFrame` | json_serial.py:101-110 | `junk{"result":5}` gives the frame `{"result":5}` and an empty buffer |
| `JsonSerialProperties.NestedFrameTakenWhole` | json_serial.py:105-107 | `{"result":{"x":1}}` is taken whole, inner object included |
| `JsonSerialProperties.ResidueAfterFrame` | json_serial.py:109 | text after the frame's `}` stays in the buffer |
| `JsonSerialProperties.ClosingBeforeOpening` | json_serial.py:101-112 | when the last `}` comes before the first `{`, nothing is extracted and the buffer is kept |
| `JsonSerial.DictToBytes` | json_serial.py:7-13 | the request bytes are the UTF-8 of `json.dumps(d)` followed by CR LF |
| `JsonSerialProperties.AsciiRequestBytes` | json_serial.py:13 | for an ASCII serialisation, the bytes are its characters' codes followed by CR LF |
| `Transport.Pop` | json_serial.py:69 | one `readall` takes the first waiting chunk; an exhausted queue yields nothing |
| `Transport.Device.ReadAll` | json_serial.py:69 | `ser.readall` on an open handle pops one chunk and sends nothing |
| `Transport.Device.Write` | json_serial.py:57 | `ser.write` records the bytes handed to it, whatever the device then reports, and returns the device's reply |
| `JsonSerial.JsonSerialPort.constructor` | json_serial.py:18-24 | a new port has no handle, an empty buffer and no error |
| `JsonSerial.JsonSerialPort.Open` | json_serial.py:26-40 | the old handle is closed (failures swallowed); a new open handle, or "Serial port open error" with the old handle kept |
| `JsonSerial.JsonSerialPort.Write` | json_serial.py:42-61 | `error` is cleared; a missing handle raises; a closed one does nothing; an open one sends the bytes and records a short write or a write timeout |
| `JsonSerialProperties.WriteOnOpenPort` | json_serial.py:50-61 | on an open handle the bytes are sent; "write function failed\n" iff the count differs from the length, "Cannot write data\n" iff the write timed out, and no error iff the whole length was written |
| `JsonSerial.JsonSerialPort.ReadAll` | json_serial.py:82-87 | a missing handle raises `AttributeError`, a closed one `PortNotOpenError`, and an open one pops one chunk |
| `JsonSerial.JsonSerialPort.ReadStr` | json_serial.py:63-80 | `error` is cleared; decoded text, or on failure the bytes below 127 in order, with "Decoding error\n" set at the first dropped byte and kept afterwards |
| `JsonSerial.JsonSerialPort.GetNextJson` | json_serial.py:89-116 | the poll loop runs at most `ticks` turns, each a read, an append and an attempt, and ends with the first frame found or with "" and "no json found" |
| `JsonSerialProperties.Drained` | json_serial.py:96-99 | after k reads the queue has lost its first k chunks, or all of them |
| `JsonSerialProperties.BufAfterAppends` | json_serial.py:99-100 | after reads that all missed, the buffer is the old one followed by each chunk's text |
| `JsonSerialProperties.MissShift` | json_serial.py:98-114 | after one missed turn, the remaining turns are the later turns of the whole loop |
| `JsonSerialProperties.PollHitNow` | json_serial.py:98-110 | unfolding step of the poll loop: a turn on an open port whose attempt finds a frame returns it, keeps the text after its `}` and leaves the error of that read |
| `JsonSerialProperties.PollMissNow` | json_serial.py:98-114 | unfolding step of the poll loop: a turn on an open port whose attempt misses appends the chunk's text to the buffer and goes on with one tick fewer |
| `JsonSerialProperties.HitAfterMiss` | json_serial.py:98-114 | a missed turn followed by a hit at read k-1 of the rest of the loop is a hit at read k of the whole loop |
| `JsonSerialProperties.PollFirstHit` | json_serial.py:98-110 | the first successful attempt k ends the loop: its frame, its rest as buffer, k chunks read, and `error` from the k-th read |
| `JsonSerialProperties.PollMiss` | json_serial.py:98-116 | when every attempt misses: "" returned, every chunk appended, `ticks` chunks read, "no json found" |
| `JsonSerialProperties.FirstHitExists` | json_serial.py:98-112 | if not every attempt misses, there is a first one that succeeds |
| `JsonSerialProperties.PollOnOpenPort` | json_serial.py:89-116 | on an open port: "" iff every attempt misses, and then the buffer is the old one plus every chunk; otherwise a well-shaped valid frame with no `}` left in the buffer; at most `ticks` reads |
| `JsonSerialProperties.PollOnUnusablePort` | json_serial.py:95-99 | on a missing or closed handle the first read raises and the buffer is untouched |
| `JsonSerialProperties.ExhaustedQueueAddsNothing` | json_serial.py:98-116 | once the device has sent everything and the buffer holds no frame, every poll reads nothing and the call ends with "" and "no json found", the buffer unchanged |
| `JsonSerialProperties.SplitReplyReassembled` | json_serial.py:99-112 | a reply split over two reads is kept until its end arrives, then extracted whole |
| `JsonSerial.JsonSerialPort.Close` | json_serial.py:118-127 | `error` is cleared; an open handle is closed, or "Error closing serial port"; a missing handle raises |
| `JsonSerial.JsonSerialPort.FlushInput` | json_serial.py:129-135 | an open port's buffer is emptied; a missing or closed handle raises |
| `JsonSerial.JsonSerialPort.SeveralCycles` | json_serial.py:137-160 | open once, write once, `count` polls collected in order, close once; an exception from any step ends the call |
| `JsonSerialProperties.CollectUnfold` | json_serial.py:153-156 | unfolding step of the batch loop: the first slot's poll result goes in front of the remaining slots' results |
| `JsonSerialProperties.PollSlot` | json_serial.py:153-156 | each slot of the batch on an open port is "" or a well-shaped frame, and the port stays open with nothing more sent |
| `JsonSerialProperties.CollectOnOpenPort` | json_serial.py:152-158 | on an open port the list has exactly `count` entries, each "" or a well-shaped frame, and the port stays open |
| `JsonSerialProperties.SlotWithFrame` | json_serial.py:153-156 | a slot whose read brings a whole frame returns that frame |
| `JsonSerialProperties.SlotWithoutReply` | json_serial.py:153-156 | a slot whose read brings nothing returns "" with "no json found" |
| `JsonSerialProperties.BatchWithMissingReply` | json_serial.py:152-160 | replies frame, nothing, frame give the list `[frame1, "", frame3]` |
| `JsonSerialProperties.SeveralCyclesOnWorkingDevice` | json_serial.py:137-160 | with a device that opens and closes: a list of exactly `count` entries, each "" or a frame, one request written, and the port closed |
| `JsonSerial.JsonSerialPort.FullOneCycle` | json_serial.py:162-180 | open, write, one `get_next_json`, close; the frame is returned, and an exception from any step ends the call |
| `JsonSerialProperties.OneCycleOnWorkingDevice` | json_serial.py:162-180 | the request goes out as one write; the reply is `get_next_json`'s on the buffer earlier calls left; the port ends closed with `error` cleared |
| `JsonSerialProperties.FreshPortWithoutDevice` | json_serial.py:169-173 | on a fresh port whose device does not open, every transaction raises at the write, with nothing sent and `error` cleared |
| `JsonSerial.JsonSerialPort.FullOneCycleWithKey` | json_serial.py:182-197 | the reply is lower-cased and parsed, and the key looked up; "No result for <key> key" and the sentinel when no frame came or the key is absent |
| `JsonSerialProperties.KeyLookupCases` | json_serial.py:193-194 | on a reply with lower-case keys, an absent lower-cased key falls through, a lower-case key finds its value, and any other key raises KeyError |
| `JsonSerialProperties.MixedCaseKeyRaises` | json_serial.py:193-194 | the key "5vV" passes the membership test on a reply holding "5vv" and then raises KeyError |
| `JsonSerialProperties.WithKeyOnWorkingDevice` | json_serial.py:190-197 | with a working device, the sentinel comes exactly when no frame came or the lower-cased key is absent, and then `error` names the key; a found value is the one stored under the key as given |

## Left out

- `Text.Lower`: changes only the ASCII letters A to Z. Python's `str.lower` also maps other Unicode letters; the replies and keys of this fixture are ASCII.
- `JsonSerial.JsonSerialPort.Write`: models `write(data, False, False)` only, the call that the three transactions make. With `encode=True` or `eol=True` the method encodes or extends a `str`; those paths depend on Python's dynamic typing and are not used by the core.
- `json.loads`, `json.dumps` and the success path of `bytes.decode('utf-8')` are oracles in `Codec`, not reimplemented. The model knows only that the empty text never parses. The decoder oracle is not constrained on the empty chunk; the lemmas that rely on `b"".decode()` being `""` (`SlotWithoutReply`, `BatchWithMissingReply`, `ExhaustedQueueAddsNothing`) take that as a hypothesis.
- The `encoding=` keyword passed to `json.loads` is left out. Newer Python versions reject it with a `TypeError`.
- `time.sleep` and real time are left out. The timeout is a whole number of 0.1 s ticks. Python adds 0.1 as a float, so `timeout=1` actually runs 11 polls.
- `reset_input_buffer` and `reset_output_buffer` are left out, because the operating system's buffers are not modelled. Every queued chunk counts as arriving after the last reset.
- Device behaviour is left out: the device's replies do not depend on the request, and its open, close and write behaviour is fixed for the whole run.
- pyserial exceptions other than `PortNotOpenError` and the write timeout are left out: a `SerialException` while writing, and a `ValueError` from bad settings.
- The constructor arguments `port_id`, `baudrate` and `timeout` are left out. They only configure the pyserial handle.
- Every `print` diagnostic is left out. They produce output and change no state.
- The `__main__` demonstration at the end of `json_serial.py` is left out.
- `NewWorld.py` is not part of this model: it is the test plan that calls the port, GPIO, prompts and reports.
