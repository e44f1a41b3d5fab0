/**
 * What the port's operations guarantee, stated over the specification layer
 * of module JsonSerial: how get_next_json's poll loop ends, the shape of the
 * frames it returns, the length of a batch, and what a transaction leaves.
 */
module JsonSerialProperties {
  import opened Wrappers
  import opened Text
  import opened Framing
  import opened Transport
  import opened JsonSerial

  // ---------------------------------------------------------------------------
  // Extraction, from the other side: a buffer made of noise, a frame and a rest
  // ---------------------------------------------------------------------------

  /**
   * The converse of ExtractShape: noise without `{`, a well-shaped frame that
   * parses and a rest without `}` give exactly that frame and that rest.
   */
  lemma ExtractSplit<M>(noise: string, f: string, rest: string, parse: string -> Option<M>)
    requires '{' !in noise && '}' !in rest
    requires WellShaped(f) && Parses(parse, f)
    ensures Extract(noise + f + rest, parse) == Found(f, rest)
  {
    var buf := noise + f + rest;
    var s := |noise|;
    var e := |noise| + |f| - 1;
    assert buf[s] == f[0];
    assert buf[e] == f[|f| - 1];
    assert FirstAt(buf, '{', s) by {
      forall i | 0 <= i < s ensures buf[i] != '{' {
        assert buf[i] == noise[i];
      }
    }
    assert LastAt(buf, '}', e) by {
      forall i | e < i < |buf| ensures buf[i] != '}' {
        assert buf[i] == rest[i - e - 1];
      }
    }
    assert buf[s..e + 1] == f;
    assert buf[e + 1..] == rest;
    ExtractFound(buf, parse, s, e);
  }

  /** Leading garbage is discarded: "junk" before a reply is not part of the frame. */
  lemma NoiseBeforeFrame<M>(parse: string -> Option<M>)
    requires parse("{\"result\":5}").Some?
    ensures Extract("junk{\"result\":5}", parse) == Found("{\"result\":5}", "")
  {
    var f := "{\"result\":5}";
    assert "junk" + f + "" == "junk{\"result\":5}";
    ExtractSplit("junk", f, "", parse);
  }

  /** The last `}` rule takes a reply holding an inner object whole. */
  lemma NestedFrameTakenWhole<M>(parse: string -> Option<M>)
    requires parse("{\"result\":{\"x\":1}}").Some?
    ensures Extract("{\"result\":{\"x\":1}}", parse) == Found("{\"result\":{\"x\":1}}", "")
  {
    var f := "{\"result\":{\"x\":1}}";
    assert "" + f + "" == f;
    ExtractSplit("", f, "", parse);
  }

  /** Text after the frame's closing `}` stays in the buffer for the next call. */
  lemma ResidueAfterFrame<M>(f: string, parse: string -> Option<M>)
    requires WellShaped(f) && Parses(parse, f)
    ensures Extract(f + "{", parse) == Found(f, "{")
  {
    assert "" + f + "{" == f + "{";
    ExtractSplit("", f, "{", parse);
  }

  /** When the last `}` comes before the first `{` nothing is extracted. */
  lemma ClosingBeforeOpening<M>(buf: string, parse: string -> Option<M>, s: nat, e: nat)
    requires FirstAt(buf, '{', s) && LastAt(buf, '}', e) && e < s
    ensures Extract(buf, parse) == NotYet
  {
  }

  // ---------------------------------------------------------------------------
  // The poll loop of get_next_json on an open port
  // ---------------------------------------------------------------------------

  /** The text the first `k` reads deliver, read_str's decoding applied to each chunk. */
  function Arrived<V>(codec: Codec<V>, q: seq<seq<byte>>, k: nat): string
    decreases k
  {
    if k == 0 then "" else DecodeChunk(codec, Pop(q).0).0 + Arrived(codec, Pop(q).1, k - 1)
  }

  /** The queue after `k` reads: `k` chunks fewer, never fewer than none. */
  function Drained(q: seq<seq<byte>>, k: nat): (r: seq<seq<byte>>)
    ensures r == q[(if k <= |q| then k else |q|)..]
    decreases k
  {
    if k == 0 then q else Drained(Pop(q).1, k - 1)
  }

  /** The error read_str leaves behind on the k-th read. */
  function ErrorOfRead<V>(codec: Codec<V>, q: seq<seq<byte>>, k: nat): string
    requires k >= 1
  {
    DecodeChunk(codec, Pop(Drained(q, k - 1)).0).1
  }

  /** The buffer after `k` reads that all missed: the old buffer and each chunk's text appended. */
  function BufAfter<V>(codec: Codec<V>, buf: string, q: seq<seq<byte>>, k: nat): string
    decreases k
  {
    if k == 0 then buf else BufAfter(codec, buf + DecodeChunk(codec, Pop(q).0).0, Pop(q).1, k - 1)
  }

  /** Failed attempts only append: the buffer after `k` reads is the old one followed by what arrived. */
  lemma {:induction false} BufAfterAppends<V>(codec: Codec<V>, buf: string, q: seq<seq<byte>>, k: nat)
    ensures BufAfter(codec, buf, q, k) == buf + Arrived(codec, q, k)
    decreases k
  {
    if k > 0 {
      var t := DecodeChunk(codec, Pop(q).0).0;
      BufAfterAppends(codec, buf + t, Pop(q).1, k - 1);
      assert (buf + t) + Arrived(codec, Pop(q).1, k - 1) == buf + (t + Arrived(codec, Pop(q).1, k - 1));
    }
  }

  /** The buffer after `k` reads, seen from the first read: that read's text, then `k - 1` more. */
  lemma BufAfterUnfold<V>(codec: Codec<V>, buf: string, q: seq<seq<byte>>, k: nat)
    requires k >= 1
    ensures BufAfter(codec, buf, q, k) == BufAfter(codec, buf + DecodeChunk(codec, Pop(q).0).0, Pop(q).1, k - 1)
  {
  }

  /** No attempt among the first `n` finds a frame. */
  ghost predicate Misses<V>(codec: Codec<V>, buf: string, q: seq<seq<byte>>, n: nat)
  {
    forall j :: 1 <= j <= n ==> Extract(BufAfter(codec, buf, q, j), codec.parse) == NotYet
  }

  /** When the first `n >= 1` attempts miss, so does the very first one. */
  lemma FirstReadMissed<V>(codec: Codec<V>, buf: string, q: seq<seq<byte>>, n: nat)
    requires Misses(codec, buf, q, n) && n >= 1
    ensures Extract(buf + DecodeChunk(codec, Pop(q).0).0, codec.parse) == NotYet
  {
    assert Extract(BufAfter(codec, buf, q, 1), codec.parse) == NotYet;
    BufAfterUnfold(codec, buf, q, 1);
  }

  /** After one read that missed, the remaining attempts are the later ones of the whole loop. */
  lemma MissShift<V>(codec: Codec<V>, buf: string, q: seq<seq<byte>>, n: nat)
    requires Misses(codec, buf, q, n) && n >= 1
    ensures Misses(codec, buf + DecodeChunk(codec, Pop(q).0).0, Pop(q).1, n - 1)
  {
    var b := buf + DecodeChunk(codec, Pop(q).0).0;
    forall j | 1 <= j <= n - 1
      ensures Extract(BufAfter(codec, b, Pop(q).1, j), codec.parse) == NotYet
    {
      assert Extract(BufAfter(codec, buf, q, j + 1), codec.parse) == NotYet;
    }
  }

  /** One turn of the poll loop on an open port whose attempt finds a frame: the loop ends there. */
  lemma PollHitNow<V>(codec: Codec<V>, st: PortState, ticks: nat, f: string, rest: string)
    requires st.ser == Serial(true) && ticks > 0
    requires Extract(st.buf + DecodeChunk(codec, Pop(st.incoming).0).0, codec.parse) == Found(f, rest)
    ensures PollLoop(codec, st, ticks)
         == Step(Value(f), st.(buf := rest, incoming := Pop(st.incoming).1,
                               error := DecodeChunk(codec, Pop(st.incoming).0).1))
  {
  }

  /** One turn of the poll loop on an open port whose attempt misses: the chunk is appended and the loop goes on. */
  lemma PollMissNow<V>(codec: Codec<V>, st: PortState, ticks: nat)
    requires st.ser == Serial(true) && ticks > 0
    requires Extract(st.buf + DecodeChunk(codec, Pop(st.incoming).0).0, codec.parse) == NotYet
    ensures PollLoop(codec, st, ticks)
         == PollLoop(codec, st.(buf := st.buf + DecodeChunk(codec, Pop(st.incoming).0).0,
                                incoming := Pop(st.incoming).1,
                                error := DecodeChunk(codec, Pop(st.incoming).0).1), ticks - 1)
  {
  }

  /** Reading after a miss: the k-th read of the whole queue is the (k-1)-th of what the first read left. */
  lemma ReadShift<V>(codec: Codec<V>, q: seq<seq<byte>>, k: nat)
    requires k > 1
    ensures Drained(q, k) == Drained(Pop(q).1, k - 1)
    ensures ErrorOfRead(codec, q, k) == ErrorOfRead(codec, Pop(q).1, k - 1)
  {
    assert Drained(q, k - 1) == Drained(Pop(q).1, k - 2);
  }

  /** A miss followed by a later hit: the whole loop ends as the rest of it does. */
  lemma HitAfterMiss<V>(codec: Codec<V>, st: PortState, ticks: nat, k: nat, f: string, rest: string)
    requires st.ser == Serial(true) && 1 < k <= ticks
    requires Extract(st.buf + DecodeChunk(codec, Pop(st.incoming).0).0, codec.parse) == NotYet
    requires var d := DecodeChunk(codec, Pop(st.incoming).0);
      var st1 := st.(buf := st.buf + d.0, incoming := Pop(st.incoming).1, error := d.1);
      PollLoop(codec, st1, ticks - 1)
        == Step(Value(f), st1.(buf := rest, incoming := Drained(st1.incoming, k - 1),
                               error := ErrorOfRead(codec, st1.incoming, k - 1)))
    ensures PollLoop(codec, st, ticks)
         == Step(Value(f), st.(buf := rest, incoming := Drained(st.incoming, k),
                               error := ErrorOfRead(codec, st.incoming, k)))
  {
    PollMissNow(codec, st, ticks);
    ReadShift(codec, st.incoming, k);
  }

  /**
   * The first attempt that finds a frame ends the loop: the frame is returned,
   * the buffer keeps what followed it, `k` chunks have been read, and `error`
   * is what the last read left.
   */
  lemma {:induction false} PollFirstHit<V>(codec: Codec<V>, st: PortState, ticks: nat, k: nat,
                                           f: string, rest: string)
    requires st.ser == Serial(true)
    requires 1 <= k <= ticks
    requires Misses(codec, st.buf, st.incoming, k - 1)
    requires Extract(BufAfter(codec, st.buf, st.incoming, k), codec.parse) == Found(f, rest)
    ensures PollLoop(codec, st, ticks)
         == Step(Value(f), st.(buf := rest, incoming := Drained(st.incoming, k),
                               error := ErrorOfRead(codec, st.incoming, k)))
    decreases k
  {
    BufAfterUnfold(codec, st.buf, st.incoming, k);
    if k == 1 {
      PollHitNow(codec, st, ticks, f, rest);
    } else {
      var d := DecodeChunk(codec, Pop(st.incoming).0);
      var st1 := st.(buf := st.buf + d.0, incoming := Pop(st.incoming).1, error := d.1);
      FirstReadMissed(codec, st.buf, st.incoming, k - 1);
      MissShift(codec, st.buf, st.incoming, k - 1);
      PollFirstHit(codec, st1, ticks - 1, k - 1, f, rest);
      HitAfterMiss(codec, st, ticks, k, f, rest);
    }
  }

  /**
   * When no attempt finds a frame the loop runs all `ticks` turns: the buffer
   * has every chunk appended, `ticks` chunks are read, and `error` is
   * "no json found".
   */
  lemma {:induction false} PollMiss<V>(codec: Codec<V>, st: PortState, ticks: nat)
    requires st.ser == Serial(true)
    requires Misses(codec, st.buf, st.incoming, ticks)
    ensures PollLoop(codec, st, ticks)
         == Step(Value(""), st.(buf := BufAfter(codec, st.buf, st.incoming, ticks),
                                incoming := Drained(st.incoming, ticks), error := NoJsonFound))
    decreases ticks
  {
    if ticks > 0 {
      var d := DecodeChunk(codec, Pop(st.incoming).0);
      var b := st.buf + d.0;
      assert BufAfter(codec, st.buf, st.incoming, 1) == b;
      assert Extract(b, codec.parse) == NotYet;
      PollMissNow(codec, st, ticks);
      MissShift(codec, st.buf, st.incoming, ticks);
      var st1 := st.(buf := b, incoming := Pop(st.incoming).1, error := d.1);
      PollMiss(codec, st1, ticks - 1);
    }
  }

  /**
   * Once the device has nothing more to send, a poll whose buffer holds no
   * frame reads empty chunks until the ticks run out: it returns "" with
   * "no json found" and leaves the buffer as it was. This needs the decoder
   * to turn the empty chunk into the empty text, as bytes.decode does.
   */
  lemma {:induction false} ExhaustedQueueAddsNothing<V>(codec: Codec<V>, st: PortState, ticks: nat)
    requires st.ser == Serial(true) && st.incoming == []
    requires codec.utf8([]) == Some("")
    requires Extract(st.buf, codec.parse) == NotYet
    ensures PollLoop(codec, st, ticks) == Step(Value(""), st.(error := NoJsonFound))
    decreases ticks
  {
    if ticks > 0 {
      assert st.buf + DecodeChunk(codec, Pop(st.incoming).0).0 == st.buf;
      PollMissNow(codec, st, ticks);
      ExhaustedQueueAddsNothing(codec, st.(error := ""), ticks - 1);
    }
  }

  /** Unless every one of the first `n` attempts misses, there is a first one that hits. */
  lemma {:induction false} FirstHitExists<V>(codec: Codec<V>, buf: string, q: seq<seq<byte>>, n: nat)
      returns (k: nat)
    requires !Misses(codec, buf, q, n)
    ensures 1 <= k <= n && Misses(codec, buf, q, k - 1)
    ensures Extract(BufAfter(codec, buf, q, k), codec.parse).Found?
  {
    if Misses(codec, buf, q, n - 1) {
      k := n;
    } else {
      k := FirstHitExists(codec, buf, q, n - 1);
    }
  }

  /**
   * get_next_json on an open port: it returns "" exactly when every attempt
   * misses; otherwise a well-shaped frame that parses, leaving no `}` in the
   * buffer. It reads at most `ticks` chunks and never touches the handle or
   * the outgoing bytes.
   */
  lemma PollOnOpenPort<V>(codec: Codec<V>, st: PortState, ticks: nat)
    requires st.ser == Serial(true)
    ensures var r := PollSpec(codec, st, ticks);
      && r.out.Value?
      && (r.out.value == "" <==> Misses(codec, st.buf, st.incoming, ticks))
      && (r.out.value == "" ==> r.st.error == NoJsonFound
                                && r.st.buf == st.buf + Arrived(codec, st.incoming, ticks))
      && (r.out.value != "" ==> WellShaped(r.out.value) && Parses(codec.parse, r.out.value)
                                && '}' !in r.st.buf)
      && |r.st.incoming| >= |st.incoming| - ticks
      && r.st.ser == st.ser && r.st.outgoing == st.outgoing
  {
    var st0 := st.(error := "");
    if Misses(codec, st.buf, st.incoming, ticks) {
      PollMiss(codec, st0, ticks);
      BufAfterAppends(codec, st.buf, st.incoming, ticks);
    } else {
      var k := FirstHitExists(codec, st.buf, st.incoming, ticks);
      var x := Extract(BufAfter(codec, st.buf, st.incoming, k), codec.parse);
      PollFirstHit(codec, st0, ticks, k, x.frame, x.rest);
      ExtractShape(BufAfter(codec, st.buf, st.incoming, k), codec.parse, x.frame, x.rest);
    }
  }

  /** On a handle that is missing or closed, the first read raises and the buffer is untouched. */
  lemma PollOnUnusablePort<V>(codec: Codec<V>, st: PortState, ticks: nat)
    requires st.ser != Serial(true) && ticks > 0
    ensures var r := PollSpec(codec, st, ticks);
      && r.out == Raise(if st.ser == NoHandle then NoSerialObject else PortNotOpen)
      && r.st == st.(error := "")
  {
  }

  /** A reply split over two reads is kept until its end arrives, then extracted whole. */
  lemma SplitReplyReassembled<V>(codec: Codec<V>, st: PortState, ticks: nat,
                                 c1: seq<byte>, c2: seq<byte>, p: string, s: string)
    requires st.ser == Serial(true) && st.buf == "" && st.incoming == [c1, c2] && ticks >= 2
    requires codec.utf8(c1) == Some(p) && codec.utf8(c2) == Some(s)
    requires '}' !in p && WellShaped(p + s) && Parses(codec.parse, p + s)
    ensures PollSpec(codec, st, ticks) == Step(Value(p + s), st.(incoming := [], error := ""))
  {
    assert BufAfter(codec, "", [c1, c2], 1) == p by {
      assert BufAfter(codec, "", [c1, c2], 1) == BufAfter(codec, "" + p, [c2], 0);
    }
    assert Extract(p, codec.parse) == NotYet by {
      assert LastIndexOf(p, '}') == None;
    }
    assert BufAfter(codec, "", [c1, c2], 2) == "" + (p + s) + "" by {
      assert BufAfter(codec, "", [c1, c2], 2) == BufAfter(codec, p + s, [], 0);
    }
    ExtractSplit("", p + s, "", codec.parse);
    PollFirstHit(codec, st.(error := ""), ticks, 2, p + s, "");
  }

  // ---------------------------------------------------------------------------
  // several_cycles
  // ---------------------------------------------------------------------------

  /** A shape a slot of several_cycles can have: empty after a timeout, or a frame. */
  predicate SlotShaped(t: string)
  {
    t == "" || WellShaped(t)
  }

  /** One slot on an open port: "" or a well-shaped frame, with the port still open and nothing sent. */
  lemma PollSlot<V>(codec: Codec<V>, st: PortState, ticks: nat)
    requires st.ser == Serial(true)
    ensures PollSpec(codec, st, ticks).out.Value?
    ensures SlotShaped(PollSpec(codec, st, ticks).out.value)
    ensures PollSpec(codec, st, ticks).st.ser == Serial(true)
    ensures PollSpec(codec, st, ticks).st.outgoing == st.outgoing
  {
    PollOnOpenPort(codec, st, ticks);
  }

  /**
   * The loop of several_cycles on an open port gives exactly `count` entries,
   * each empty or a well-shaped frame, and leaves the port open.
   */
  lemma {:induction false} CollectOnOpenPort<V>(codec: Codec<V>, st: PortState, ticks: nat, count: nat)
    requires st.ser == Serial(true)
    ensures var r := CollectSpec(codec, st, ticks, count);
      && r.out.Value? && |r.out.value| == count
      && (forall i :: 0 <= i < count ==> SlotShaped(r.out.value[i]))
      && r.st.ser == Serial(true) && r.st.outgoing == st.outgoing
    decreases count
  {
    if count > 0 {
      var p := PollSpec(codec, st, ticks);
      PollSlot(codec, st, ticks);
      CollectUnfold(codec, st, ticks, count, p.out.value, p.st);
      CollectOnOpenPort(codec, p.st, ticks, count - 1);
      var rest := CollectSpec(codec, p.st, ticks, count - 1);
      var all := [p.out.value] + rest.out.value;
      assert CollectSpec(codec, st, ticks, count) == Step(Value(all), rest.st);
      forall i | 0 <= i < count ensures SlotShaped(all[i]) {
        if i > 0 {
          assert all[i] == rest.out.value[i - 1];
        }
      }
    }
  }

  /** A one-poll slot whose read brings a whole frame on an empty buffer returns that frame. */
  lemma SlotWithFrame<V>(codec: Codec<V>, st: PortState, c: seq<byte>, f: string, q: seq<seq<byte>>)
    requires st.ser == Serial(true) && st.buf == "" && st.incoming == [c] + q
    requires codec.utf8(c) == Some(f) && WellShaped(f) && Parses(codec.parse, f)
    ensures PollSpec(codec, st, 1) == Step(Value(f), st.(incoming := q, error := ""))
  {
    assert BufAfter(codec, "", st.incoming, 1) == "" + f + "";
    ExtractSplit("", f, "", codec.parse);
    PollFirstHit(codec, st.(error := ""), 1, 1, f, "");
  }

  /** A one-poll slot whose read brings nothing on an empty buffer times out. */
  lemma SlotWithoutReply<V>(codec: Codec<V>, st: PortState, q: seq<seq<byte>>)
    requires st.ser == Serial(true) && st.buf == "" && st.incoming == [[]] + q
    requires codec.utf8([]) == Some("")
    ensures PollSpec(codec, st, 1) == Step(Value(""), st.(incoming := q, error := NoJsonFound))
  {
    assert BufAfter(codec, "", st.incoming, 1) == "";
    assert Extract("", codec.parse) == NotYet;
    PollMiss(codec, st.(error := ""), 1);
  }

  /**
   * Three slots with a timed-out one in the middle: the frames in order, and
   * the empty string for the slot whose read brought nothing.
   */
  lemma BatchWithMissingReply<V>(codec: Codec<V>, st: PortState,
                                 b1: seq<byte>, b3: seq<byte>, f1: string, f3: string)
    requires st.ser == Serial(true) && st.buf == "" && st.incoming == [b1, [], b3]
    requires codec.utf8(b1) == Some(f1) && codec.utf8([]) == Some("") && codec.utf8(b3) == Some(f3)
    requires WellShaped(f1) && Parses(codec.parse, f1) && WellShaped(f3) && Parses(codec.parse, f3)
    ensures CollectSpec(codec, st, 1, 3).out == Value([f1, "", f3])
  {
    var empty: seq<seq<byte>> := [];
    SlotWithFrame(codec, st, b1, f1, [[], b3]);
    var st1 := st.(incoming := [[], b3], error := "");
    SlotWithoutReply(codec, st1, [b3]);
    var st2 := st1.(incoming := [b3], error := NoJsonFound);
    SlotWithFrame(codec, st2, b3, f3, empty);
    var st3 := st2.(incoming := empty, error := "");
    CollectUnfold(codec, st2, 1, 1, f3, st3);
    CollectUnfold(codec, st1, 1, 2, "", st2);
    CollectUnfold(codec, st, 1, 3, f1, st1);
    assert [f1] + ([""] + ([f3] + [])) == [f1, "", f3];
  }

  /** One slot of several_cycles: the poll's result goes in front of the remaining slots'. */
  lemma CollectUnfold<V>(codec: Codec<V>, st: PortState, ticks: nat, count: nat, t: string, st1: PortState)
    requires count > 0 && PollSpec(codec, st, ticks) == Step(Value(t), st1)
    ensures CollectSpec(codec, st, ticks, count) == Prefix([t], CollectSpec(codec, st1, ticks, count - 1))
  {
  }

  // ---------------------------------------------------------------------------
  // Transactions
  // ---------------------------------------------------------------------------

  /** dicttobyte's bytes are the UTF-8 of the serialised request followed by CR LF. */
  lemma AsciiRequestBytes<V>(codec: Codec<V>, d: map<string, V>)
    requires forall i :: 0 <= i < |codec.dumps(d)| ==> codec.dumps(d)[i] as int < 0x80
    ensures |DictToBytes(codec, d)| == |codec.dumps(d)| + 2
    ensures forall i :: 0 <= i < |codec.dumps(d)| ==> DictToBytes(codec, d)[i] as int == codec.dumps(d)[i] as int
  {
    EncodeAscii(codec.dumps(d));
  }

  /** write on an open handle: which error it records for which reply of the device. */
  lemma WriteOnOpenPort(b: Behaviour, st: PortState, data: seq<byte>)
    requires st.ser == Serial(true)
    ensures var r := WriteSpec(b, st, data);
      && r.out == Value(())
      && r.st == st.(error := r.st.error, outgoing := st.outgoing + [data])
      && (r.st.error == WriteFailed <==> b.writeReply.Wrote? && b.writeReply.count != |data|)
      && (r.st.error == WriteTimedOut <==> b.writeReply.WriteTimeout?)
      && (r.st.error == "" <==> b.writeReply == Wrote(|data|))
  {
  }

  /**
   * full_one_cycle on a device that opens and closes: the request goes out as
   * one write, the reply is get_next_json's on the buffer left by earlier
   * transactions, and the port ends closed with `error` cleared by close.
   */
  lemma OneCycleOnWorkingDevice<V>(codec: Codec<V>, b: Behaviour, st: PortState,
                                   data: map<string, V>, ticks: nat)
    requires b.opens && b.closes
    ensures var sent := SendSpec(codec, b, st, data);
      var polled := PollSpec(codec, sent.st, ticks);
      var r := OneCycleSpec(codec, b, st, data, ticks);
      && sent.out == Value(())
      && sent.st.ser == Serial(true) && sent.st.buf == st.buf && sent.st.incoming == st.incoming
      && sent.st.outgoing == st.outgoing + [DictToBytes(codec, data)]
      && r.out == polled.out && r.out.Value? && SlotShaped(r.out.value)
      && r.st == polled.st.(ser := Serial(false), error := "")
  {
    var sent := SendSpec(codec, b, st, data);
    WriteOnOpenPort(b, OpenSpec(b, st), DictToBytes(codec, data));
    PollOnOpenPort(codec, sent.st, ticks);
  }

  /**
   * several_cycles on a device that opens and closes: one write, exactly
   * `count` entries, each empty or a frame, and the port closed at the end.
   */
  lemma SeveralCyclesOnWorkingDevice<V>(codec: Codec<V>, b: Behaviour, st: PortState,
                                        data: map<string, V>, count: nat, ticks: nat)
    requires b.opens && b.closes
    ensures var r := SeveralCyclesSpec(codec, b, st, data, count, ticks);
      && r.out.Value? && |r.out.value| == count
      && (forall i :: 0 <= i < count ==> SlotShaped(r.out.value[i]))
      && r.st.ser == Serial(false) && r.st.error == ""
      && r.st.outgoing == st.outgoing + [DictToBytes(codec, data)]
  {
    var sent := SendSpec(codec, b, st, data);
    WriteOnOpenPort(b, OpenSpec(b, st), DictToBytes(codec, data));
    CollectOnOpenPort(codec, sent.st, ticks, count);
  }

  /**
   * A fresh port whose device does not open: the open error is recorded, but
   * write then reads the missing handle and every transaction raises, with
   * nothing sent and `error` cleared by write.
   */
  lemma FreshPortWithoutDevice<V>(codec: Codec<V>, b: Behaviour, st: PortState,
                                  data: map<string, V>, key: string, count: nat, ticks: nat)
    requires st.ser == NoHandle && !b.opens
    ensures OpenSpec(b, st).error == OpenError
    ensures var r := OneCycleSpec(codec, b, st, data, ticks);
      r.out == Raise(NoSerialObject) && r.st == st.(error := "")
    ensures SeveralCyclesSpec(codec, b, st, data, count, ticks).out == Raise(NoSerialObject)
    ensures WithKeySpec(codec, b, st, data, key, ticks).out == Raise(NoSerialObject)
  {
  }

  // ---------------------------------------------------------------------------
  // full_one_cycle_with_key
  // ---------------------------------------------------------------------------

  /**
   * The lookup on a reply whose keys are all lower case (as json.loads gives
   * for a lower-cased text): a missing lower-cased key falls through, a
   * lower-case key finds its value, and any other key raises KeyError.
   */
  lemma KeyLookupCases<V>(d: map<string, V>, key: string)
    requires forall k :: k in d ==> Lower(k) == k
    ensures Lower(key) !in d ==> KeyLookup(d, key) == Value(None)
    ensures Lower(key) in d && Lower(key) == key ==> KeyLookup(d, key) == Value(Some(d[key]))
    ensures Lower(key) in d && Lower(key) != key ==> KeyLookup(d, key) == Raise(KeyMissing(key))
  {
  }

  /** The key "5vV" used by the 5 V measurement passes the membership test and then raises. */
  lemma MixedCaseKeyRaises<V>(d: map<string, V>)
    requires "5vv" in d
    requires forall k :: k in d ==> Lower(k) == k
    ensures KeyLookup(d, "5vV") == Raise(KeyMissing("5vV"))
  {
    assert LowerChar('V') == 'v';
    assert Lower("5vV") == "5vv";
    assert Lower("5vV") != "5vV";
    KeyLookupCases(d, "5vV");
  }

  /**
   * full_one_cycle_with_key on a working device returns the "no result"
   * sentinel exactly when no frame came or its lower-cased key is absent, and
   * then `error` names the key.
   */
  lemma WithKeyOnWorkingDevice<V>(codec: Codec<V>, b: Behaviour, st: PortState,
                                  data: map<string, V>, key: string, ticks: nat)
    requires b.opens && b.closes
    ensures OneCycleSpec(codec, b, st, data, ticks).out.Value?
    ensures var f := OneCycleSpec(codec, b, st, data, ticks).out.value;
      var r := WithKeySpec(codec, b, st, data, key, ticks);
      && (r.out == Value(None) <==>
            f == "" || (codec.parse(Lower(f)).Some? && Lower(key) !in codec.parse(Lower(f)).value))
      && (r.out == Value(None) ==> r.st.error == NoResultFor(key))
      && (r.out.Value? && r.out.value.Some? ==>
            f != "" && codec.parse(Lower(f)).Some? && key in codec.parse(Lower(f)).value
            && r.out.value.value == codec.parse(Lower(f)).value[key])
  {
    OneCycleOnWorkingDevice(codec, b, st, data, ticks);
  }
}
