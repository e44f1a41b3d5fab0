/**
 * JsonSerialPort: requests serialised as JSON and sent over a serial link,
 * replies collected in an accumulating text buffer until one JSON object can
 * be cut out of it, within a bounded number of 0.1 s polls.
 *
 * The file has two layers. The specification layer describes each operation
 * as a function from the port state before the call to its outcome and the
 * state after it. The class JsonSerialPort holds the same state in fields and
 * its methods do the work step by step, as the Python methods do; each method
 * is proved to end in the state its specification function gives.
 *
 * Exceptions that escape a Python method (an AttributeError on a missing
 * handle, pyserial's PortNotOpenError, a KeyError, a JSONDecodeError) are the
 * outcome Raise; everything the methods catch is recorded in `error`.
 */
module JsonSerial {
  import opened Wrappers
  import opened Text
  import opened Framing
  import opened Transport

  /**
   * The library calls the port relies on, as oracles. V is the type of JSON
   * values; a JSON object is a map from keys to values.
   */
  datatype Codec<!V> = Codec(
    /** bytes.decode('utf-8'); None where it raises UnicodeDecodeError. */
    utf8: seq<byte> -> Option<string>,
    /** json.loads of a text opening with `{`; None where it raises JSONDecodeError. */
    parse: string -> Option<map<string, V>>,
    /** json.dumps of a request. */
    dumps: map<string, V> -> string)

  const OpenError := "Serial port open error"
  const WriteFailed := "write function failed\n"
  const WriteTimedOut := "Cannot write data\n"
  const DecodingError := "Decoding error\n"
  const NoJsonFound := "no json found"
  const CloseError := "Error closing serial port"

  /** The diagnostic of full_one_cycle_with_key, "No result for %s key" % key. */
  function NoResultFor(key: string): string
  {
    "No result for " + key + " key"
  }

  /** dicttobyte: the request serialised, CRLF appended, encoded as UTF-8. */
  function DictToBytes<V>(codec: Codec<V>, d: map<string, V>): (bs: seq<byte>)
    ensures bs == Encode(codec.dumps(d)) + [13, 10]
    ensures |bs| >= 2 && bs[|bs| - 2] == 13 && bs[|bs| - 1] == 10
  {
    EncodeAppend(codec.dumps(d), "\r\n");
    Encode(codec.dumps(d) + "\r\n")
  }

  /** A Python exception that escapes the port's methods. */
  datatype Fault =
    | NoSerialObject          // AttributeError: self.ser is still None
    | PortNotOpen             // pyserial's PortNotOpenError: the handle is closed
    | KeyMissing(key: string) // KeyError raised by data[key]
    | InvalidJson             // JSONDecodeError raised by json.loads on the lower-cased reply

  /** A method's return value, or the exception it raises. */
  datatype Outcome<+T> = Value(value: T) | Raise(fault: Fault)

  /** The fields of a port together with the device's queues. */
  datatype PortState = PortState(
    ser: Handle,
    buf: string,
    error: string,
    incoming: seq<seq<byte>>,
    outgoing: seq<seq<byte>>)

  /** The outcome of an operation and the state it leaves behind. */
  datatype Step<+T> = Step(out: Outcome<T>, st: PortState)

  // ---------------------------------------------------------------------------
  // Specification layer
  // ---------------------------------------------------------------------------

  /** open: the old handle is closed (a failure is swallowed), then a new one is opened. */
  function OpenSpec(b: Behaviour, st: PortState): PortState
  {
    var old_ser := if st.ser == Serial(true) && b.closes then Serial(false) else st.ser;
    if b.opens then st.(ser := Serial(true), error := "")
    else st.(ser := old_ser, error := OpenError)
  }

  /** write(data, False, False): bytes as given, no CRLF added. */
  function WriteSpec(b: Behaviour, st: PortState, data: seq<byte>): Step<()>
  {
    var st1 := st.(error := "");
    match st.ser
    case NoHandle => Step(Raise(NoSerialObject), st1)
    case Serial(isOpen) =>
      if !isOpen then Step(Value(()), st1)
      else
        var sent := st1.(outgoing := st.outgoing + [data]);
        match b.writeReply
        case Wrote(n) => Step(Value(()), sent.(error := if n != |data| then WriteFailed else ""))
        case WriteTimeout => Step(Value(()), sent.(error := WriteTimedOut))
  }

  /** ser.readall (and the port's own readall). */
  function ReadAllSpec(st: PortState): Step<seq<byte>>
  {
    match st.ser
    case NoHandle => Step(Raise(NoSerialObject), st)
    case Serial(isOpen) =>
      if !isOpen then Step(Raise(PortNotOpen), st)
      else Step(Value(Pop(st.incoming).0), st.(incoming := Pop(st.incoming).1))
  }

  /** The text read_str makes of a chunk and the error it leaves. */
  function DecodeChunk<V>(codec: Codec<V>, bytes: seq<byte>): (string, string)
  {
    match codec.utf8(bytes)
    case Some(text) => (text, "")
    case None => (Salvage(bytes), if DropsByte(bytes) then DecodingError else "")
  }

  /** read_str. */
  function ReadStrSpec<V>(codec: Codec<V>, st: PortState): Step<string>
  {
    match ReadAllSpec(st.(error := ""))
    case Step(Raise(f), st1) => Step(Raise(f), st1)
    case Step(Value(bytes), st1) =>
      var d := DecodeChunk(codec, bytes);
      Step(Value(d.0), st1.(error := d.1))
  }

  /** The poll loop of get_next_json with `ticks` polls of 0.1 s left. */
  function PollLoop<V>(codec: Codec<V>, st: PortState, ticks: nat): Step<string>
    decreases ticks
  {
    if ticks == 0 then Step(Value(""), st.(error := NoJsonFound))
    else
      match ReadStrSpec(codec, st)
      case Step(Raise(f), st1) => Step(Raise(f), st1)
      case Step(Value(chunk), st1) =>
        var b := st1.buf + chunk;
        match Extract(b, codec.parse)
        case Found(frame, rest) => Step(Value(frame), st1.(buf := rest))
        case NotYet => PollLoop(codec, st1.(buf := b), ticks - 1)
  }

  /** get_next_json with a timeout of `ticks` tenths of a second. */
  function PollSpec<V>(codec: Codec<V>, st: PortState, ticks: nat): Step<string>
  {
    PollLoop(codec, st.(error := ""), ticks)
  }

  /** close. */
  function CloseSpec(b: Behaviour, st: PortState): Step<()>
  {
    var st1 := st.(error := "");
    match st.ser
    case NoHandle => Step(Raise(NoSerialObject), st1)
    case Serial(isOpen) =>
      if !isOpen then Step(Value(()), st1)
      else if b.closes then Step(Value(()), st1.(ser := Serial(false)))
      else Step(Value(()), st1.(error := CloseError))
  }

  /** flush_input. */
  function FlushSpec(st: PortState): Step<()>
  {
    match st.ser
    case NoHandle => Step(Raise(NoSerialObject), st)
    case Serial(isOpen) =>
      if !isOpen then Step(Raise(PortNotOpen), st)
      else Step(Value(()), st.(buf := ""))
  }

  /** `ts` put in front of the list an operation returns; an exception passes through. */
  function Prefix(ts: seq<string>, s: Step<seq<string>>): Step<seq<string>>
  {
    match s.out
    case Value(rest) => Step(Value(ts + rest), s.st)
    case Raise(_) => s
  }

  lemma PrefixNil(s: Step<seq<string>>)
    ensures Prefix([], s) == s
  {
    if s.out.Value? {
      assert [] + s.out.value == s.out.value;
    }
  }

  lemma PrefixPrefix(a: seq<string>, b: seq<string>, s: Step<seq<string>>)
    ensures Prefix(a, Prefix(b, s)) == Prefix(a + b, s)
  {
    if s.out.Value? {
      assert a + (b + s.out.value) == (a + b) + s.out.value;
    }
  }

  /** The loop of several_cycles with `count` slots left. */
  function CollectSpec<V>(codec: Codec<V>, st: PortState, ticks: nat, count: nat): Step<seq<string>>
    decreases count
  {
    if count == 0 then Step(Value([]), st)
    else
      match PollSpec(codec, st, ticks)
      case Step(Raise(f), st1) => Step(Raise(f), st1)
      case Step(Value(t), st1) => Prefix([t], CollectSpec(codec, st1, ticks, count - 1))
  }

  /** open and write the request; the outcome of the write and the state after it. */
  function SendSpec<V>(codec: Codec<V>, b: Behaviour, st: PortState, data: map<string, V>): Step<()>
  {
    WriteSpec(b, OpenSpec(b, st), DictToBytes(codec, data))
  }

  /** several_cycles. */
  function SeveralCyclesSpec<V>(codec: Codec<V>, b: Behaviour, st: PortState, data: map<string, V>,
                                count: nat, ticks: nat): Step<seq<string>>
  {
    match SendSpec(codec, b, st, data)
    case Step(Raise(f), st1) => Step(Raise(f), st1)
    case Step(Value(_), st1) =>
      match CollectSpec(codec, st1, ticks, count)
      case Step(Raise(f), st2) => Step(Raise(f), st2)
      case Step(Value(res), st2) =>
        match CloseSpec(b, st2)
        case Step(Raise(f), st3) => Step(Raise(f), st3)
        case Step(Value(_), st3) => Step(Value(res), st3)
  }

  /** full_one_cycle. */
  function OneCycleSpec<V>(codec: Codec<V>, b: Behaviour, st: PortState, data: map<string, V>,
                           ticks: nat): Step<string>
  {
    match SendSpec(codec, b, st, data)
    case Step(Raise(f), st1) => Step(Raise(f), st1)
    case Step(Value(_), st1) =>
      match PollSpec(codec, st1, ticks)
      case Step(Raise(f), st2) => Step(Raise(f), st2)
      case Step(Value(temp), st2) =>
        match CloseSpec(b, st2)
        case Step(Raise(f), st3) => Step(Raise(f), st3)
        case Step(Value(_), st3) => Step(Value(temp), st3)
  }

  /**
   * The lookup in full_one_cycle_with_key: membership is checked for the
   * lower-cased key, the value is fetched with the key as given. Value(None)
   * stands for falling through to the "No result" branch.
   */
  function KeyLookup<V>(d: map<string, V>, key: string): Outcome<Option<V>>
  {
    if Lower(key) in d then
      if key in d then Value(Some(d[key])) else Raise(KeyMissing(key))
    else Value(None)
  }

  /** full_one_cycle_with_key; Value(None) is the "" the method returns when nothing is found. */
  function WithKeySpec<V>(codec: Codec<V>, b: Behaviour, st: PortState, data: map<string, V>,
                          key: string, ticks: nat): Step<Option<V>>
  {
    match OneCycleSpec(codec, b, st, data, ticks)
    case Step(Raise(f), st1) => Step(Raise(f), st1)
    case Step(Value(js), st1) =>
      var looked :=
        if js == "" then Value(None)
        else match codec.parse(Lower(js))
          case None => Raise(InvalidJson)
          case Some(reply) => KeyLookup(reply, key);
      if looked.Value? && looked.value.None? then
        Step(Value(None), st1.(error := NoResultFor(key)))
      else Step(looked, st1)
  }

  // ---------------------------------------------------------------------------
  // The port
  // ---------------------------------------------------------------------------

  class JsonSerialPort<V> {
    const codec: Codec<V>
    const device: Device
    var ser: Handle
    var buf: string
    var error: string

    function State(): PortState
      reads this, device
    {
      PortState(ser, buf, error, device.incoming, device.outgoing)
    }

    constructor (codec: Codec<V>, device: Device)
      ensures this.codec == codec && this.device == device
      ensures ser == NoHandle && buf == "" && error == ""
    {
      this.codec := codec;
      this.device := device;
      ser := NoHandle;
      buf := "";
      error := "";
    }

    method Open()
      modifies this
      ensures State() == OpenSpec(device.behaviour, old(State()))
    {
      error := "";
      if ser == Serial(true) && device.behaviour.closes {
        ser := Serial(false);
      }
      if device.behaviour.opens {
        ser := Serial(true);
      } else {
        error := OpenError;
      }
    }

    method Write(data: seq<byte>) returns (r: Outcome<()>)
      modifies this, device
      ensures Step(r, State()) == WriteSpec(device.behaviour, old(State()), data)
    {
      error := "";
      match ser
      case NoHandle =>
        return Raise(NoSerialObject);
      case Serial(isOpen) =>
        if isOpen {
          var res := device.Write(data);
          match res
          case Wrote(n) =>
            if n != |data| {
              error := WriteFailed;
            }
          case WriteTimeout =>
            error := WriteTimedOut;
        }
        return Value(());
    }

    method ReadAll() returns (r: Outcome<seq<byte>>)
      modifies device
      ensures Step(r, State()) == ReadAllSpec(old(State()))
    {
      match ser
      case NoHandle =>
        return Raise(NoSerialObject);
      case Serial(isOpen) =>
        if !isOpen {
          return Raise(PortNotOpen);
        }
        var bytes := device.ReadAll();
        return Value(bytes);
    }

    method ReadStr() returns (r: Outcome<string>)
      modifies this, device
      ensures Step(r, State()) == ReadStrSpec(codec, old(State()))
    {
      error := "";
      var response := ReadAll();
      if response.Raise? {
        return Raise(response.fault);
      }
      var bytes := response.value;
      match codec.utf8(bytes)
      case Some(text) =>
        return Value(text);
      case None =>
      ghost var before := State();
      var text := "";
      for i := 0 to |bytes|
        invariant text == Salvage(bytes[..i])
        invariant error == if DropsByte(bytes[..i]) then DecodingError else ""
        invariant State() == before.(error := error)
      {
        assert bytes[..i + 1] == bytes[..i] + [bytes[i]];
        DropsByteSnoc(bytes[..i], bytes[i]);
        if bytes[i] < 127 {
          text := text + [Chr(bytes[i])];
        } else if error == "" {
          error := DecodingError;
        }
      }
      assert bytes[..|bytes|] == bytes;
      return Value(text);
    }

    method GetNextJson(ticks: nat) returns (r: Outcome<string>)
      modifies this, device
      ensures Step(r, State()) == PollSpec(codec, old(State()), ticks)
    {
      error := "";
      ghost var start := State();
      var t := 0;
      while t < ticks
        invariant t <= ticks
        invariant PollLoop(codec, State(), ticks - t) == PollLoop(codec, start, ticks)
      {
        var chunk := ReadStr();
        if chunk.Raise? {
          return Raise(chunk.fault);
        }
        buf := buf + chunk.value;
        match Extract(buf, codec.parse)
        case Found(frame, rest) =>
          buf := rest;
          return Value(frame);
        case NotYet =>
        t := t + 1;
      }
      error := NoJsonFound;
      return Value("");
    }

    method Close() returns (r: Outcome<()>)
      modifies this
      ensures Step(r, State()) == CloseSpec(device.behaviour, old(State()))
    {
      error := "";
      match ser
      case NoHandle =>
        return Raise(NoSerialObject);
      case Serial(isOpen) =>
        if isOpen {
          if device.behaviour.closes {
            ser := Serial(false);
          } else {
            error := CloseError;
          }
        }
        return Value(());
    }

    method FlushInput() returns (r: Outcome<()>)
      modifies this
      ensures Step(r, State()) == FlushSpec(old(State()))
    {
      match ser
      case NoHandle =>
        return Raise(NoSerialObject);
      case Serial(isOpen) =>
        if !isOpen {
          return Raise(PortNotOpen);
        }
        buf := "";
        return Value(());
    }

    method SeveralCycles(data: map<string, V>, count: nat, ticks: nat) returns (r: Outcome<seq<string>>)
      modifies this, device
      ensures Step(r, State()) == SeveralCyclesSpec(codec, device.behaviour, old(State()), data, count, ticks)
    {
      Open();
      var dataBytes := DictToBytes(codec, data);
      var w := Write(dataBytes);
      if w.Raise? {
        return Raise(w.fault);
      }
      ghost var sent := State();
      var res: seq<string> := [];
      PrefixNil(CollectSpec(codec, sent, ticks, count));
      for i := 0 to count
        invariant Prefix(res, CollectSpec(codec, State(), ticks, count - i)) == CollectSpec(codec, sent, ticks, count)
      {
        var temp := GetNextJson(ticks);
        if temp.Raise? {
          return Raise(temp.fault);
        }
        PrefixPrefix(res, [temp.value], CollectSpec(codec, State(), ticks, count - i - 1));
        res := res + [temp.value];
      }
      assert CollectSpec(codec, sent, ticks, count) == Step(Value(res), State()) by {
        assert res + [] == res;
      }
      var c := Close();
      if c.Raise? {
        return Raise(c.fault);
      }
      return Value(res);
    }

    method FullOneCycle(data: map<string, V>, ticks: nat) returns (r: Outcome<string>)
      modifies this, device
      ensures Step(r, State()) == OneCycleSpec(codec, device.behaviour, old(State()), data, ticks)
    {
      Open();
      var dataBytes := DictToBytes(codec, data);
      var w := Write(dataBytes);
      if w.Raise? {
        return Raise(w.fault);
      }
      var temp := GetNextJson(ticks);
      if temp.Raise? {
        return temp;
      }
      var c := Close();
      if c.Raise? {
        return Raise(c.fault);
      }
      return temp;
    }

    method FullOneCycleWithKey(data: map<string, V>, key: string, ticks: nat) returns (r: Outcome<Option<V>>)
      modifies this, device
      ensures Step(r, State()) == WithKeySpec(codec, device.behaviour, old(State()), data, key, ticks)
    {
      var jsonStr := FullOneCycle(data, ticks);
      if jsonStr.Raise? {
        return Raise(jsonStr.fault);
      }
      if jsonStr.value != "" {
        match codec.parse(Lower(jsonStr.value))
        case None =>
          return Raise(InvalidJson);
        case Some(reply) =>
          if Lower(key) in reply {
            if key !in reply {
              return Raise(KeyMissing(key));
            }
            return Value(Some(reply[key]));
          }
      }
      error := NoResultFor(key);
      return Value(None);
    }
  }
}
