/** The long-link codec of longlink_packer.cpp: the verdict on a receive buffer, the
    packer, and the reassembly of a byte stream. */
module LonglinkPacker {
  import opened Bytes
  import opened ImMessage

  const NOOP_TASK_ID: Uint32 := 0xFFFF_FFFF
  const HEARTBEAT_BYTES: nat := 4
  const MAX_PACKAGE: nat := 1024 * 1024
  const PUSH_START: Uint32 := 0
  const PUSH_END: Uint32 := 10000

  datatype Verdict = Ok | Continue | False

  /** The bytes that happen to follow a receive buffer in memory: the header is read
      even from a buffer that is shorter than it. */
  type Stale = s: seq<Byte> | HEADER_SIZE <= |s| witness seq(HEADER_SIZE, _ => 0)

  // -------------------------------------------------------------- __unpack_test

  datatype Test = Test(verdict: Verdict, cmdid: Uint32, taskid: Uint32, packageLen: nat, bodyLen: nat)

  /** The outcome of __unpack_test; cmdid and bodyLen come in with their old values,
      which a heartbeat leaves alone. */
  function Tested(packed: seq<Byte>, stale: Stale, cmdid: Uint32, bodyLen: nat): Test {
    if |packed| == HEARTBEAT_BYTES then Test(Ok, cmdid, NOOP_TASK_ID, HEARTBEAT_BYTES, bodyLen)
    else
      var header := packed + stale;
      var size := HEADER_SIZE + LenOf(header);
      Test(if size > MAX_PACKAGE then False else if size > |packed| then Continue else Ok,
           0, IdOf(header), size, LenOf(header))
  }

  method UnpackTest(packed: seq<Byte>, stale: Stale, cmdid0: Uint32, bodyLen0: nat)
    returns (ret: Verdict, cmdid: Uint32, taskid: Uint32, packageLen: nat, bodyLen: nat)
    ensures Test(ret, cmdid, taskid, packageLen, bodyLen) == Tested(packed, stale, cmdid0, bodyLen0)
  {
    cmdid, bodyLen := cmdid0, bodyLen0;
    var header := packed + stale;
    if |packed| == HEARTBEAT_BYTES {
      taskid := NOOP_TASK_ID;
      packageLen := |packed|;
      return Ok, cmdid, taskid, packageLen, bodyLen;
    }
    cmdid := 0;
    taskid := ReadUint32(header, 4);
    bodyLen := ReadUint32(header, 8);
    packageLen := ReadUint32(header, 8) + HEADER_SIZE;
    ret := Ok;
    if packageLen > MAX_PACKAGE {
      ret := False;
    } else if packageLen > |packed| {
      ret := Continue;
    }
  }

  /** longlink_unpack: on success the whole buffer, not just one package, is handed
      over as the body. */
  method LonglinkUnpack(packed: seq<Byte>, stale: Stale, cmdid0: Uint32, body0: seq<Byte>)
    returns (ret: Verdict, cmdid: Uint32, taskid: Uint32, packageLen: nat, body: seq<Byte>)
    ensures var t := Tested(packed, stale, cmdid0, 0);
            ret == t.verdict && cmdid == t.cmdid && taskid == t.taskid && packageLen == t.packageLen
    ensures body == if ret == Ok then body0 + packed else body0
  {
    var bodyLen;
    ret, cmdid, taskid, packageLen, bodyLen := UnpackTest(packed, stale, cmdid0, 0);
    body := body0;
    if ret != Ok {
      return;
    }
    body := body + packed;
  }

  /** longlink_pack, into an empty buffer: the heartbeat for the no-op task, else the
      body as it is. */
  method LonglinkPack(taskid: Uint32, body: seq<Byte>) returns (packed: seq<Byte>)
    ensures packed == Packed(taskid, body)
  {
    packed := [];
    if taskid == NOOP_TASK_ID {
      packed := packed + [0, 0, 0, 4];
    } else if |body| > 0 {
      packed := packed + body;
    }
  }

  function Packed(taskid: Uint32, body: seq<Byte>): seq<Byte> {
    if taskid == NOOP_TASK_ID then [0, 0, 0, 4] else body
  }

  predicate IsPush(taskid: Uint32) {
    PUSH_START < taskid < PUSH_END
  }

  predicate NoopIsResp(recvSeq: Uint32) {
    NOOP_TASK_ID == recvSeq
  }

  predicate IdentifyIsResp(sentSeq: Uint32, recvSeq: Uint32) {
    sentSeq == recvSeq && 0 != sentSeq
  }

  /** The predicates agree with the packer and with each other: an answer is at most
      one of push and no-op, and an identify answer to a no-op is a no-op answer. */
  lemma TaskKindsDisjoint(sent: Uint32, recv: Uint32)
    ensures !(IsPush(recv) && NoopIsResp(recv))
    ensures IdentifyIsResp(sent, recv) ==> (NoopIsResp(recv) <==> Packed(sent, []) == [0, 0, 0, 4])
  {
  }

  /** Of the ids that a process hands out before the counter comes round, exactly the
      first 2^32 - 10001 (and the id 0) belong to neither pushes nor heartbeats. The
      message after those is sent as a heartbeat. */
  lemma IdsMeanRequests(k: nat)
    requires k < 0x1_0000_0000
    ensures !IsPush(IdAt(k)) && !NoopIsResp(IdAt(k)) <==> k < 0x1_0000_0000 - 10001 || k == 0x1_0000_0000 - 10000
    ensures IdAt(0x1_0000_0000 - 10001) == NOOP_TASK_ID
  {
  }

  // ---------------------------------------------------------------- the verdict

  lemma ReadInPrefix(s: seq<Byte>, rest: seq<Byte>, at: nat)
    requires at + 4 <= |s|
    ensures ReadUint32(s + rest, at) == ReadUint32(s, at)
  {
  }

  /** OK on anything but a heartbeat means that the whole header and body lie in the
      buffer, even when the bytes past a short buffer are arbitrary. */
  lemma OkMeansComplete(packed: seq<Byte>, stale: Stale, cmdid: Uint32, bodyLen: nat)
    ensures var t := Tested(packed, stale, cmdid, bodyLen);
            t.verdict == Ok <==>
              |packed| == HEARTBEAT_BYTES || (Complete(packed) && 12 + LenOf(packed) <= 1024 * 1024)
    ensures var t := Tested(packed, stale, cmdid, bodyLen);
            HEADER_SIZE <= |packed| ==>
              && t.taskid == IdOf(packed) && t.bodyLen == LenOf(packed)
              && t.packageLen == HEADER_SIZE + LenOf(packed)
  {
    if HEADER_SIZE <= |packed| {
      ReadInPrefix(packed, stale, 4);
      ReadInPrefix(packed, stale, 8);
    }
  }

  /** From 12 bytes on, more bytes never change the task id or the package length,
      false and OK are permanent, and CONTINUE turns into OK exactly when the whole
      package is there. */
  lemma VerdictMonotone(packed: seq<Byte>, more: seq<Byte>, stale: Stale, stale': Stale, cmdid: Uint32, bodyLen: nat)
    requires HEADER_SIZE <= |packed|
    ensures var t, t' := Tested(packed, stale, cmdid, bodyLen), Tested(packed + more, stale', cmdid, bodyLen);
            && t'.taskid == t.taskid && t'.packageLen == t.packageLen
            && t'.verdict == (if t.verdict == Continue && t.packageLen <= |packed + more| then Ok else t.verdict)
  {
    OkMeansComplete(packed, stale, cmdid, bodyLen);
    OkMeansComplete(packed + more, stale', cmdid, bodyLen);
    ReadInPrefix(packed, more, 4);
    ReadInPrefix(packed, more, 8);
  }

  const NOISE: Stale := seq(HEADER_SIZE, _ => 0xFF)

  /** A buffer that ends inside the header can be refused: the length it reads ends
      in a byte from outside. */
  lemma ShortBufferRefused(packed: seq<Byte>)
    requires |packed| < HEADER_SIZE && |packed| != HEARTBEAT_BYTES
    ensures forall cmdid, bodyLen :: Tested(packed, NOISE, cmdid, bodyLen).verdict == False
  {
    assert (packed + NOISE)[11] == 0xFF;
  }

  /** What a prefix of a frame is told, whatever bytes follow the buffer: to wait,
      exactly when the prefix holds the header; OK exactly when it is the frame, or
      its first four bytes, which look like a heartbeat. */
  lemma PrefixVerdict(id: Uint32, body: seq<Byte>, k: nat, cmdid: Uint32, bodyLen: nat)
    requires HEADER_SIZE + |body| <= MAX_PACKAGE && k <= HEADER_SIZE + |body|
    ensures var prefix := Frame(id, body)[..k];
            && ((forall stale: Stale :: Tested(prefix, stale, cmdid, bodyLen).verdict == Continue)
                <==> HEADER_SIZE <= k < HEADER_SIZE + |body|)
            && ((forall stale: Stale :: Tested(prefix, stale, cmdid, bodyLen).verdict == Ok)
                <==> k == HEADER_SIZE + |body| || k == HEARTBEAT_BYTES)
  {
    var frame := Frame(id, body);
    var prefix := frame[..k];
    FrameReadsBack(id, body, []);
    assert frame + [] == frame;
    if HEADER_SIZE <= k {
      assert prefix + frame[k..] == frame;
      ReadInPrefix(prefix, frame[k..], 8);
      forall stale: Stale
        ensures Tested(prefix, stale, cmdid, bodyLen).verdict == if k < |frame| then Continue else Ok
      {
        ReadInPrefix(prefix, stale, 8);
      }
    } else if k != HEARTBEAT_BYTES {
      ShortBufferRefused(prefix);
    }
    assert Tested(prefix, NOISE, cmdid, bodyLen).verdict == Continue ==> HEADER_SIZE <= k < |frame|;
    assert Tested(prefix, NOISE, cmdid, bodyLen).verdict == Ok ==> k == |frame| || k == HEARTBEAT_BYTES;
  }

  // ------------------------------------------------------------- reassembly

  datatype Message = Message(id: Uint32, body: seq<Byte>)

  /** What the receiver hands on: a heartbeat, or a task id with the data that the
      message object cuts out of the whole remaining buffer. */
  datatype Delivery = Heartbeat | Delivered(message: Message)

  datatype Outcome = Outcome(deliveries: seq<Delivery>, rest: seq<Byte>, verdict: Verdict)

  predicate Fits(m: Message) {
    HEADER_SIZE + |m.body| <= MAX_PACKAGE
  }

  predicate AllFit(ms: seq<Message>) {
    forall k :: 0 <= k < |ms| ==> Fits(ms[k])
  }

  function FrameOf(m: Message): seq<Byte>
    requires Fits(m)
  {
    Frame(m.id, m.body)
  }

  function Stream(ms: seq<Message>): seq<Byte>
    requires AllFit(ms)
  {
    if ms == [] then [] else FrameOf(ms[0]) + Stream(ms[1..])
  }

  function Deliveries(ms: seq<Message>): seq<Delivery> {
    seq(|ms|, k requires 0 <= k < |ms| => Delivered(ms[k]))
  }

  /** The caller's loop: unpack, hand on, drop packageLen bytes, until the verdict is
      not OK or the buffer is empty. The bytes past the buffer may differ each time. */
  function Drain(buf: seq<Byte>, stale: nat -> Stale): Outcome
    decreases |buf|
  {
    if buf == [] then Outcome([], [], Continue)
    else
      var t := Tested(buf, stale(|buf|), 0, 0);
      OkMeansComplete(buf, stale(|buf|), 0, 0);
      if t.verdict != Ok then Outcome([], buf, t.verdict)
      else
        var d := if |buf| == HEARTBEAT_BYTES then Heartbeat else Delivered(Message(t.taskid, DataOf(buf)));
        var o := Drain(buf[t.packageLen..], stale);
        o.(deliveries := [d] + o.deliveries)
  }

  /** A frame at the front of the buffer is delivered with its own id and body,
      although the unpacker passes on everything behind it too. */
  lemma DrainFrame(m: Message, rest: seq<Byte>, stale: nat -> Stale)
    requires Fits(m)
    ensures var o := Drain(rest, stale);
            Drain(FrameOf(m) + rest, stale) == o.(deliveries := [Delivered(m)] + o.deliveries)
  {
    var buf := FrameOf(m) + rest;
    FrameReadsBack(m.id, m.body, rest);
    OkMeansComplete(buf, stale(|buf|), 0, 0);
    assert buf[|FrameOf(m)|..] == rest;
  }

  /** The heartbeat that the packer writes comes back as one: with the no-op id, used up
      to the last byte, and with command id and body length left alone. */
  lemma HeartbeatReadsBack(body: seq<Byte>, stale: nat -> Stale, cmdid: Uint32, bodyLen: nat)
    ensures var packed := Packed(NOOP_TASK_ID, body);
            var test := Tested(packed, stale(|packed|), cmdid, bodyLen);
            && test.verdict == Ok && NoopIsResp(test.taskid) && test.packageLen == |packed| == 4
            && test.cmdid == cmdid && test.bodyLen == bodyLen
            && Drain(packed, stale) == Outcome([Heartbeat], [], Continue)
  {
    var packed := Packed(NOOP_TASK_ID, body);
    assert packed[4..] == [];
    assert Drain([], stale) == Outcome([], [], Continue);
  }

  /** What a frame that is unpacked is taken for, by its id: a push, a heartbeat, or the
      answer to the request with that id; its command id is 0. */
  lemma AnswerKinds(sent: Uint32, id: Uint32, body: seq<Byte>, stale: Stale, cmdid: Uint32, bodyLen: nat)
    requires HEADER_SIZE + |body| <= MAX_PACKAGE
    ensures var test := Tested(Frame(id, body), stale, cmdid, bodyLen);
            && test.verdict == Ok && test.cmdid == 0 && test.bodyLen == |body| && test.packageLen == 12 + |body|
            && (IsPush(test.taskid) <==> 0 < id < 10000)
            && (NoopIsResp(test.taskid) <==> id == 0xFFFF_FFFF)
            && (IdentifyIsResp(sent, test.taskid) <==> id == sent && sent != 0)
  {
    FrameReadsBack(id, body, []);
    assert Frame(id, body) + [] == Frame(id, body);
    OkMeansComplete(Frame(id, body), stale, cmdid, bodyLen);
  }

  /** Where the first n bytes of a stream end: on a frame boundary, or at least a
      header into a frame. */
  predicate SafeCut(ms: seq<Message>, n: nat)
    requires AllFit(ms)
    decreases |ms|
  {
    if ms == [] || n == 0 then true
    else if |FrameOf(ms[0])| <= n then SafeCut(ms[1..], n - |FrameOf(ms[0])|)
    else HEADER_SIZE <= n
  }

  lemma PartialFrame(m: Message, n: nat, stale: nat -> Stale)
    requires Fits(m) && 0 < n < |FrameOf(m)|
    ensures var buf := FrameOf(m)[..n]; var o := Drain(buf, stale);
            if HEADER_SIZE <= n then o == Outcome([], buf, Continue)
            else stale(n) == NOISE ==> o.verdict == False || Heartbeat in o.deliveries
  {
    var buf := FrameOf(m)[..n];
    if HEADER_SIZE <= n {
      PrefixVerdict(m.id, m.body, n, 0, 0);
      assert Tested(buf, stale(n), 0, 0).verdict == Continue;
    } else if n != HEARTBEAT_BYTES {
      ShortBufferRefused(buf);
    } else {
      assert Drain(buf, stale).deliveries[0] == Heartbeat;
    }
  }

  /** The whole stream in one buffer: exactly the original ids and bodies in order,
      and nothing is left over. */
  lemma {:induction false} StreamReassembles(ms: seq<Message>, stale: nat -> Stale)
    requires AllFit(ms)
    ensures Drain(Stream(ms), stale) == Outcome(Deliveries(ms), [], Continue)
  {
    if ms != [] {
      DrainFrame(ms[0], Stream(ms[1..]), stale);
      StreamReassembles(ms[1..], stale);
      assert Deliveries(ms) == [Delivered(ms[0])] + Deliveries(ms[1..]);
    }
  }

  // ---------------------------------------------------------- chunked arrival

  function Concat(chunks: seq<seq<Byte>>): seq<Byte> {
    if chunks == [] then [] else chunks[0] + Concat(chunks[1..])
  }

  /** What lies behind the buffer after each arrival, at each length that the buffer
      then has. */
  type Memory = (nat, nat) -> Stale

  function At(mem: Memory, arrival: nat): nat -> Stale {
    (length: nat) => mem(arrival, length)
  }

  /** Chunks arrive one after another, numbered from k; each is added to what was left
      over. */
  function Feed(rest: seq<Byte>, chunks: seq<seq<Byte>>, mem: Memory, k: nat): Outcome
    decreases |chunks|
  {
    if chunks == [] then Outcome([], rest, Continue)
    else
      var o := Drain(rest + chunks[0], At(mem, k));
      if o.verdict == False then o
      else
        var o' := Feed(o.rest, chunks[1..], mem, k + 1);
        o'.(deliveries := o.deliveries + o'.deliveries)
  }

  /** No arrival, counted from n bytes already there, ends at an unsafe place. */
  predicate SafeCuts(ms: seq<Message>, n: nat, chunks: seq<seq<Byte>>)
    requires AllFit(ms)
    decreases |chunks|
  {
    chunks != [] ==> SafeCut(ms, n + |chunks[0]|) && SafeCuts(ms, n + |chunks[0]|, chunks[1..])
  }

  lemma {:induction false} SafeCutsSkip(ms: seq<Message>, n: nat, chunks: seq<seq<Byte>>)
    requires AllFit(ms) && ms != []
    ensures SafeCuts(ms, |FrameOf(ms[0])| + n, chunks) <==> SafeCuts(ms[1..], n, chunks)
    decreases |chunks|
  {
    if chunks != [] {
      SafeCutsSkip(ms, n + |chunks[0]|, chunks[1..]);
    }
  }

  lemma StreamEmpty(ms: seq<Message>)
    requires AllFit(ms) && Stream(ms) == []
    ensures ms == []
  {
  }

  /** The outcome of draining a buffer that holds the stream up to a safe place: the
      first `done` messages are delivered and what is left over starts the stream of
      the others. */
  ghost predicate Progress(ms: seq<Message>, n: nat, later: seq<Byte>, chunks: seq<seq<Byte>>, o: Outcome, done: nat)
    requires AllFit(ms)
  {
    && done <= |ms| && (later == [] ==> done == |ms|)
    && o.deliveries == Deliveries(ms[..done]) && o.verdict == Continue
    && o.rest + later == Stream(ms[done..])
    && (SafeCuts(ms, n, chunks) <==> SafeCuts(ms[done..], |o.rest|, chunks))
  }

  lemma ProgressFrame(ms: seq<Message>, buf: seq<Byte>, later: seq<Byte>, chunks: seq<seq<Byte>>,
                      stale: nat -> Stale, done: nat)
    requires AllFit(ms) && ms != [] && Progress(ms[1..], |buf|, later, chunks, Drain(buf, stale), done)
    ensures Progress(ms, |FrameOf(ms[0]) + buf|, later, chunks, Drain(FrameOf(ms[0]) + buf, stale), done + 1)
  {
    DrainFrame(ms[0], buf, stale);
    ProgressCons(ms, |buf|, later, chunks, Drain(buf, stale), done);
  }

  lemma ProgressCons(ms: seq<Message>, n: nat, later: seq<Byte>, chunks: seq<seq<Byte>>, o: Outcome, done: nat)
    requires AllFit(ms) && ms != [] && Progress(ms[1..], n, later, chunks, o, done)
    ensures Progress(ms, |FrameOf(ms[0])| + n, later, chunks,
                     o.(deliveries := [Delivered(ms[0])] + o.deliveries), done + 1)
  {
    SafeCutsSkip(ms, n, chunks);
    DeliveriesCons(ms, done);
  }

  lemma ProgressNone(ms: seq<Message>, buf: seq<Byte>, later: seq<Byte>, chunks: seq<seq<Byte>>,
                     stale: nat -> Stale)
    requires AllFit(ms) && buf + later == Stream(ms) && SafeCut(ms, |buf|)
    requires ms == [] || |buf| < |FrameOf(ms[0])|
    ensures Progress(ms, |buf|, later, chunks, Drain(buf, stale), 0)
  {
    assert ms[0..] == ms;
    if later == [] {
      StreamEmptyOrFrame(ms, buf);
    }
    if ms != [] && buf != [] {
      BackOf(buf, later, FrameOf(ms[0]), Stream(ms[1..]));
      PartialFrame(ms[0], |buf|, stale);
    }
  }

  lemma StreamEmptyOrFrame(ms: seq<Message>, buf: seq<Byte>)
    requires AllFit(ms) && buf + [] == Stream(ms)
    requires ms == [] || |buf| < |FrameOf(ms[0])|
    ensures ms == []
  {
    assert buf + [] == buf;
  }

  lemma {:induction false} DrainSafe(ms: seq<Message>, buf: seq<Byte>, later: seq<Byte>, chunks: seq<seq<Byte>>,
                                     stale: nat -> Stale)
    returns (done: nat)
    requires AllFit(ms) && buf + later == Stream(ms) && SafeCut(ms, |buf|)
    ensures Progress(ms, |buf|, later, chunks, Drain(buf, stale), done)
    decreases |ms|
  {
    if ms == [] || |buf| < |FrameOf(ms[0])| {
      done := 0;
      ProgressNone(ms, buf, later, chunks, stale);
    } else {
      var buf' := buf[|FrameOf(ms[0])|..];
      FrontOf(buf, later, FrameOf(ms[0]), Stream(ms[1..]));
      done := DrainSafe(ms[1..], buf', later, chunks, stale);
      ProgressFrame(ms, buf', later, chunks, stale, done);
      done := done + 1;
    }
  }

  lemma FrontOf(buf: seq<Byte>, later: seq<Byte>, frame: seq<Byte>, rest: seq<Byte>)
    requires buf + later == frame + rest && |frame| <= |buf|
    ensures buf == frame + buf[|frame|..] && buf[|frame|..] + later == rest
  {
    assert (buf + later)[..|frame|] == frame == buf[..|frame|];
    assert (buf + later)[|frame|..] == rest;
  }

  lemma BackOf(buf: seq<Byte>, later: seq<Byte>, frame: seq<Byte>, rest: seq<Byte>)
    requires buf + later == frame + rest && |buf| < |frame|
    ensures buf == frame[..|buf|] && later != []
  {
    assert (frame + rest)[..|buf|] == frame[..|buf|];
    assert (buf + later)[..|buf|] == buf;
  }

  lemma DeliveriesCons(ms: seq<Message>, done: nat)
    requires done < |ms|
    ensures Deliveries(ms[..done + 1]) == [Delivered(ms[0])] + Deliveries(ms[1..][..done])
    ensures ms[1..][done..] == ms[done + 1..]
  {
  }

  /** A buffer that ends at an unsafe place can be refused or answered as a heartbeat. */
  lemma {:induction false} DrainUnsafe(ms: seq<Message>, buf: seq<Byte>, later: seq<Byte>, stale: nat -> Stale)
    requires AllFit(ms) && buf + later == Stream(ms) && !SafeCut(ms, |buf|)
    requires forall k :: stale(k) == NOISE
    ensures Drain(buf, stale).verdict == False || Heartbeat in Drain(buf, stale).deliveries
    decreases |ms|
  {
    var frame := FrameOf(ms[0]);
    if |frame| <= |buf| {
      FrontOf(buf, later, frame, Stream(ms[1..]));
      DrainFrame(ms[0], buf[|frame|..], stale);
      DrainUnsafe(ms[1..], buf[|frame|..], later, stale);
    } else {
      BackOf(buf, later, frame, Stream(ms[1..]));
      PartialFrame(ms[0], |buf|, stale);
    }
  }

  /** Everything arrives as sent: the ids and bodies in order, and no byte left over. */
  ghost predicate Reassembles(rest: seq<Byte>, chunks: seq<seq<Byte>>, ms: seq<Message>, mem: Memory, k: nat) {
    Feed(rest, chunks, mem, k) == Outcome(Deliveries(ms), [], Continue)
  }

  lemma DeliveriesSplit(ms: seq<Message>, done: nat, x: seq<Delivery>)
    requires done <= |ms|
    ensures Deliveries(ms[..done]) + x == Deliveries(ms) <==> x == Deliveries(ms[done..])
  {
    var d := Deliveries(ms[..done]);
    assert Deliveries(ms) == d + Deliveries(ms[done..]);
    assert (d + x)[done..] == x && (d + Deliveries(ms[done..]))[done..] == Deliveries(ms[done..]);
  }

  ghost predicate Noisy(mem: Memory) {
    forall i, n :: mem(i, n) == NOISE
  }

  lemma {:induction false} FeedChunks(ms: seq<Message>, rest: seq<Byte>, chunks: seq<seq<Byte>>, mem: Memory, k: nat)
    requires AllFit(ms) && rest + Concat(chunks) == Stream(ms)
    requires chunks == [] ==> ms == []
    ensures SafeCuts(ms, |rest|, chunks) ==> Reassembles(rest, chunks, ms, mem, k)
    ensures !SafeCuts(ms, |rest|, chunks) && Noisy(mem) ==> !Reassembles(rest, chunks, ms, mem, k)
    decreases |chunks|
  {
    if chunks != [] {
      var buf, later := rest + chunks[0], Concat(chunks[1..]);
      assert buf + later == Stream(ms);
      var o := Drain(buf, At(mem, k));
      if SafeCut(ms, |buf|) {
        var done := DrainSafe(ms, buf, later, chunks[1..], At(mem, k));
        FeedChunks(ms[done..], o.rest, chunks[1..], mem, k + 1);
        DeliveriesSplit(ms, done, Feed(o.rest, chunks[1..], mem, k + 1).deliveries);
      } else if Noisy(mem) {
        DrainUnsafe(ms, buf, later, At(mem, k));
        assert o.verdict != False ==> Heartbeat in Feed(rest, chunks, mem, k).deliveries;
        assert Heartbeat !in Deliveries(ms);
      }
    }
  }

  /** A stream that arrives in chunks is reassembled, whatever bytes lie behind the
      receive buffer each time, exactly when no arrival leaves between 1 and 11 bytes of an
      unfinished frame in the buffer. */
  lemma ChunkedReassembly(ms: seq<Message>, chunks: seq<seq<Byte>>)
    requires AllFit(ms) && Concat(chunks) == Stream(ms)
    ensures (forall mem: Memory :: Reassembles([], chunks, ms, mem, 0)) <==> SafeCuts(ms, 0, chunks)
  {
    assert [] + Concat(chunks) == Stream(ms);
    if chunks == [] {
      StreamEmpty(ms);
    }
    forall mem: Memory
      ensures SafeCuts(ms, 0, chunks) ==> Reassembles([], chunks, ms, mem, 0)
    {
      FeedChunks(ms, [], chunks, mem, 0);
    }
    var noise: Memory := (_, _) => NOISE;
    FeedChunks(ms, [], chunks, noise, 0);
    assert !SafeCuts(ms, 0, chunks) ==> !Reassembles([], chunks, ms, noise, 0);
  }

  // ------------------------------------------------------------- end to end

  /** What a process writes to the link for the bodies it sends, from its k-th
      message on: each request buffer goes through the packer. */
  function Sent(bodies: seq<seq<Byte>>, k: nat): seq<Byte>
    requires forall b :: b in bodies ==> HEADER_SIZE + |b| <= MAX_PACKAGE
  {
    if bodies == [] then []
    else Packed(IdAt(k), Frame(IdAt(k), bodies[0])) + Sent(bodies[1..], k + 1)
  }

  function Numbered(bodies: seq<seq<Byte>>, k: nat): seq<Message> {
    seq(|bodies|, i requires 0 <= i < |bodies| => Message(IdAt(k + i), bodies[i]))
  }

  lemma PackedIsFrame(k: nat, body: seq<Byte>)
    requires k < 0x1_0000_0000 - 10001 && HEADER_SIZE + |body| <= MAX_PACKAGE
    ensures Packed(IdAt(k), Frame(IdAt(k), body)) == FrameOf(Message(IdAt(k), body))
  {
    IdsMeanRequests(k);
  }

  lemma NumberedCons(bodies: seq<seq<Byte>>, k: nat)
    requires bodies != []
    ensures Numbered(bodies, k) == [Message(IdAt(k), bodies[0])] + Numbered(bodies[1..], k + 1)
  {
  }

  lemma StreamCons(m: Message, ms: seq<Message>)
    requires Fits(m) && AllFit(ms)
    ensures Stream([m] + ms) == FrameOf(m) + Stream(ms)
  {
    assert ([m] + ms)[1..] == ms;
  }

  lemma {:induction false} SentIsStream(bodies: seq<seq<Byte>>, k: nat)
    requires forall b :: b in bodies ==> HEADER_SIZE + |b| <= MAX_PACKAGE
    requires k + |bodies| <= 0x1_0000_0000 - 10001
    ensures Sent(bodies, k) == Stream(Numbered(bodies, k))
  {
    if bodies != [] {
      PackedIsFrame(k, bodies[0]);
      SentIsStream(bodies[1..], k + 1);
      NumberedCons(bodies, k);
      StreamCons(Message(IdAt(k), bodies[0]), Numbered(bodies[1..], k + 1));
    }
  }

  /** The first 2^32 - 10001 messages of a process, whatever their number and bodies
      within the cap, are recovered from the packed bytes with their own ids, which
      are those of requests. */
  lemma EndToEnd(bodies: seq<seq<Byte>>, stale: nat -> Stale)
    requires forall b :: b in bodies ==> HEADER_SIZE + |b| <= MAX_PACKAGE
    requires |bodies| <= 0x1_0000_0000 - 10001
    ensures Drain(Sent(bodies, 0), stale) == Outcome(Deliveries(Numbered(bodies, 0)), [], Continue)
    ensures forall m :: m in Numbered(bodies, 0) ==> !IsPush(m.id) && !NoopIsResp(m.id)
  {
    SentIsStream(bodies, 0);
    StreamReassembles(Numbered(bodies, 0), stale);
    forall i | 0 <= i < |bodies|
      ensures var m := Numbered(bodies, 0)[i]; !IsPush(m.id) && !NoopIsResp(m.id)
    {
      IdsMeanRequests(i);
    }
  }
}
