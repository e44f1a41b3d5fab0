/**
 * The serial link as the port sees it through pyserial: a handle that is
 * absent, open or closed, and a device whose replies arrive as a queue of
 * byte chunks, one chunk per readall.
 */
module Transport {
  import opened Text

  /** self.ser: None until an open succeeds, afterwards a serial.Serial handle, open or closed. */
  datatype Handle = NoHandle | Serial(isOpen: bool)

  /** What ser.write reports: the number of bytes written, or a SerialTimeoutException. */
  datatype WriteReply = Wrote(count: nat) | WriteTimeout

  /**
   * How the device behind the port identifier behaves: whether serial.Serial
   * opens it, whether closing a handle succeeds, and what ser.write reports.
   */
  datatype Behaviour = Behaviour(opens: bool, closes: bool, writeReply: WriteReply)

  /** One readall: the first waiting chunk and the queue after it; nothing once the queue is exhausted. */
  function Pop(q: seq<seq<byte>>): (p: (seq<byte>, seq<seq<byte>>))
    ensures q == [] ==> p == ([], [])
    ensures q != [] ==> q == [p.0] + p.1
  {
    if q == [] then ([], []) else (q[0], q[1..])
  }

  /** The device end of the link. */
  class Device {
    const behaviour: Behaviour
    /** The chunks the device will deliver, one per readall. */
    var incoming: seq<seq<byte>>
    /** Every byte string handed to ser.write, oldest first. */
    var outgoing: seq<seq<byte>>

    constructor (behaviour: Behaviour, incoming: seq<seq<byte>>)
      ensures this.behaviour == behaviour && this.incoming == incoming && outgoing == []
    {
      this.behaviour := behaviour;
      this.incoming := incoming;
      outgoing := [];
    }

    /** ser.readall on an open handle. */
    method ReadAll() returns (bytes: seq<byte>)
      modifies this
      ensures (bytes, incoming) == Pop(old(incoming))
      ensures outgoing == old(outgoing)
    {
      if incoming == [] {
        bytes := [];
      } else {
        bytes, incoming := incoming[0], incoming[1..];
      }
    }

    /** ser.write on an open handle: the bytes go out, the reply is the device's. */
    method Write(data: seq<byte>) returns (reply: WriteReply)
      modifies this
      ensures reply == behaviour.writeReply
      ensures outgoing == old(outgoing) + [data] && incoming == old(incoming)
    {
      outgoing := outgoing + [data];
      reply := behaviour.writeReply;
    }
  }
}
