/** The task table of mars_task_proxy.cpp and the engine callbacks of
    stn_callback.cpp: what a sequence of callbacks does, and the classes that do it. */
module TaskProxy {
  import opened Wrappers
  import opened Bytes
  import opened ImMessage
  import L = LonglinkPacker

  const ECT_OK: int := 0

  // ------------------------------------------------------ one callback at a time

  /** A stored task: its message, if it has one, and whether a listener waits. */
  datatype Task = Task(message: Option<seq<Byte>>, listener: bool)

  datatype Event =
    | Store(id: Uint32, task: Task)
    | Req2Buf(id: Uint32)
    | Buf2Resp(id: Uint32, inbuffer: seq<Byte>)
    | OnTaskEnd(id: Uint32, errorType: int, errorCode: int)

  /** What the outside sees: the listener's calls and the callbacks' answers. */
  datatype Observation =
    | OnResponse(id: Uint32, data: seq<Byte>)
    | OnSuccess(id: Uint32)
    | OnError(id: Uint32, code: int)
    | Request(id: Uint32, out: Option<seq<Byte>>)
    | Response(id: Uint32, code: int)
    | TaskEnded(id: Uint32)
  {
    predicate IsCall() {
      OnResponse? || IsEndCall()
    }

    predicate IsEndCall() {
      OnSuccess? || OnError?
    }
  }

  /** The table, the ids ever stored, and everything observed so far. */
  datatype State = State(tasks: map<Uint32, Task>, stored: set<Uint32>, log: seq<Observation>)

  const EMPTY := State(map[], {}, [])

  /** A received buffer that is parsed holds a complete message. */
  predicate Readable(s: State, e: Event) {
    e.Buf2Resp? && e.id in s.tasks && s.tasks[e.id].listener ==> Complete(e.inbuffer)
  }

  /** What the engine and the application guarantee; an id is stored once only. */
  predicate Allowed(s: State, e: Event) {
    Readable(s, e) && (e.Store? ==> e.id !in s.stored)
  }

  function EndCall(e: Event): Observation
    requires e.OnTaskEnd?
  {
    if e.errorType == ECT_OK then OnSuccess(e.id) else OnError(e.id, e.errorCode)
  }

  function Apply(s: State, e: Event): State
    requires Readable(s, e)
  {
    match e
    case Store(id, task) => s.(tasks := s.tasks[id := task], stored := s.stored + {id})
    case Req2Buf(id) =>
      s.(log := s.log + [Request(id, if id in s.tasks then s.tasks[id].message else None)])
    case Buf2Resp(id, inbuffer) =>
      if id in s.tasks && s.tasks[id].listener
      then s.(log := s.log + [OnResponse(id, DataOf(inbuffer)), Response(id, 0)])
      else s.(log := s.log + [Response(id, -1)])
    case OnTaskEnd(id, _, _) =>
      if id !in s.tasks then s.(log := s.log + [TaskEnded(id)])
      else s.(tasks := s.tasks - {id},
              log := s.log + (if s.tasks[id].listener then [EndCall(e)] else []) + [TaskEnded(id)])
  }

  ghost predicate AllAllowed(s: State, es: seq<Event>)
    decreases |es|
  {
    es != [] ==> Allowed(s, es[0]) && AllAllowed(Apply(s, es[0]), es[1..])
  }

  ghost function Run(s: State, es: seq<Event>): State
    requires AllAllowed(s, es)
    decreases |es|
  {
    if es == [] then s else Run(Apply(s, es[0]), es[1..])
  }

  lemma {:induction false} RunAppend(s: State, es: seq<Event>, e: Event)
    requires AllAllowed(s, es) && Allowed(Run(s, es), e)
    ensures AllAllowed(s, es + [e]) && Run(s, es + [e]) == Apply(Run(s, es), e)
    decreases |es|
  {
    if es == [] {
      assert [] + [e] == [e];
      assert [e][1..] == [];
    } else {
      assert (es + [e])[1..] == es[1..] + [e];
      RunAppend(Apply(s, es[0]), es[1..], e);
    }
  }

  // ---------------------------------------------------------------- lifecycle

  /** Of the calls about one task all but the last are responses: at most one
      success or error, and nothing after it. */
  ghost predicate Lifecycle(log: seq<Observation>) {
    forall i, j :: 0 <= i < j < |log| && log[i].IsCall() && log[j].IsCall() && log[i].id == log[j].id
                   ==> log[i].OnResponse?
  }

  /** What every callback keeps: calls concern stored tasks, and a task that is still
      in the table has had no end call. */
  ghost predicate Consistent(s: State) {
    && Lifecycle(s.log)
    && s.tasks.Keys <= s.stored
    && (forall i :: 0 <= i < |s.log| && s.log[i].IsCall() ==> s.log[i].id in s.stored)
    && (forall i :: 0 <= i < |s.log| && s.log[i].IsEndCall() ==> s.log[i].id !in s.tasks)
  }

  lemma ApplyKeepsConsistent(s: State, e: Event)
    requires Consistent(s) && Allowed(s, e)
    ensures Consistent(Apply(s, e))
  {
  }

  lemma {:induction false} RunKeepsConsistent(s: State, es: seq<Event>)
    requires Consistent(s) && AllAllowed(s, es)
    ensures Consistent(Run(s, es))
    decreases |es|
  {
    if es != [] {
      ApplyKeepsConsistent(s, es[0]);
      RunKeepsConsistent(Apply(s, es[0]), es[1..]);
    }
  }

  /** Each stored task gets at most one of onSuccess and onError, and no onResponse
      after it, in every sequence of callbacks. */
  lemma LifecycleHolds(es: seq<Event>)
    requires AllAllowed(EMPTY, es)
    ensures Lifecycle(Run(EMPTY, es).log)
  {
    RunKeepsConsistent(EMPTY, es);
  }

  /** The task with this id was stored and has not ended since. */
  ghost predicate Outstanding(es: seq<Event>, id: Uint32, task: Task) {
    exists k :: 0 <= k < |es| && es[k] == Store(id, task)
                && forall j :: k < j < |es| ==> !(es[j].OnTaskEnd? && es[j].id == id)
  }

  lemma OutstandingStep(es: seq<Event>, e: Event, id: Uint32, task: Task)
    ensures Outstanding(es + [e], id, task)
       <==> e == Store(id, task) || (Outstanding(es, id, task) && !(e.OnTaskEnd? && e.id == id))
  {
    var fs := es + [e];
    assert forall k :: 0 <= k < |es| ==> fs[k] == es[k];
    assert fs[|es|] == e;
    if e == Store(id, task) {
      assert fs[|es|] == Store(id, task);
    }
    if Outstanding(es, id, task) && !(e.OnTaskEnd? && e.id == id) {
      var k :| 0 <= k < |es| && es[k] == Store(id, task)
               && forall j :: k < j < |es| ==> !(es[j].OnTaskEnd? && es[j].id == id);
      assert fs[k] == Store(id, task);
    }
  }

  /** The table after any sequence of callbacks holds exactly the outstanding tasks,
      unchanged. So until a task ends every Req2Buf yields the same bytes; afterwards
      Req2Buf fails, Buf2Resp answers -1 and OnTaskEnd does nothing. */
  lemma {:induction false} TableIsOutstanding(es: seq<Event>, id: Uint32, task: Task)
    requires AllAllowed(EMPTY, es)
    ensures id in Run(EMPTY, es).tasks && Run(EMPTY, es).tasks[id] == task <==> Outstanding(es, id, task)
    decreases |es|
  {
    if es != [] {
      var init, e := es[..|es| - 1], es[|es| - 1];
      assert es == init + [e];
      RunSplit(EMPTY, init, e);
      TableIsOutstanding(init, id, task);
      OutstandingStep(init, e, id, task);
      RunKeepsConsistent(EMPTY, init);
      assert Run(EMPTY, init).tasks.Keys <= Run(EMPTY, init).stored;
    }
  }

  lemma {:induction false} RunSplit(s: State, es: seq<Event>, e: Event)
    requires AllAllowed(s, es + [e])
    ensures AllAllowed(s, es) && Allowed(Run(s, es), e) && Run(s, es + [e]) == Apply(Run(s, es), e)
    decreases |es|
  {
    if es != [] {
      assert (es + [e])[1..] == es[1..] + [e];
      RunSplit(Apply(s, es[0]), es[1..], e);
    } else {
      assert es + [e] == [e];
    }
  }

  /** What the next callback about a task answers is fixed by whether it is
      outstanding: the same bytes every time, or failure, -1 and no change. */
  lemma AnswersAreFixed(es: seq<Event>, id: Uint32, inbuffer: seq<Byte>, errorType: int, errorCode: int)
    requires AllAllowed(EMPTY, es)
    ensures var s := Run(EMPTY, es);
            forall task :: Outstanding(es, id, task) ==>
                             Apply(s, Req2Buf(id)) == s.(log := s.log + [Request(id, task.message)])
    ensures var s := Run(EMPTY, es);
            (forall task :: !Outstanding(es, id, task)) ==>
              && Apply(s, Req2Buf(id)) == s.(log := s.log + [Request(id, None)])
              && Readable(s, Buf2Resp(id, inbuffer))
              && Apply(s, Buf2Resp(id, inbuffer)) == s.(log := s.log + [Response(id, -1)])
              && Apply(s, OnTaskEnd(id, errorType, errorCode)) == s.(log := s.log + [TaskEnded(id)])
  {
    var s := Run(EMPTY, es);
    forall task
      ensures Outstanding(es, id, task) <==> id in s.tasks && s.tasks[id] == task
    {
      TableIsOutstanding(es, id, task);
    }
    assert id in s.tasks ==> Outstanding(es, id, s.tasks[id]);
  }

  /** A task with this id and a listener is outstanding. */
  ghost predicate Waiting(es: seq<Event>, id: Uint32) {
    exists task: Task :: task.listener && Outstanding(es, id, task)
  }

  lemma ListenerWaits(es: seq<Event>, id: Uint32)
    requires AllAllowed(EMPTY, es)
    ensures var s := Run(EMPTY, es); id in s.tasks && s.tasks[id].listener <==> Waiting(es, id)
  {
    var s := Run(EMPTY, es);
    forall task
      ensures Outstanding(es, id, task) <==> id in s.tasks && s.tasks[id] == task
    {
      TableIsOutstanding(es, id, task);
    }
  }

  /** The event has the listener of its task called in this way. */
  predicate Causes(e: Event, o: Observation) {
    || (e.OnTaskEnd? && e.errorType == ECT_OK && o == OnSuccess(e.id))
    || (e.OnTaskEnd? && e.errorType != ECT_OK && o == OnError(e.id, e.errorCode))
    || (e.Buf2Resp? && HEADER_SIZE <= |e.inbuffer| && HEADER_SIZE + ReadUint32(e.inbuffer, 8) <= |e.inbuffer|
        && o == OnResponse(e.id, e.inbuffer[HEADER_SIZE..HEADER_SIZE + ReadUint32(e.inbuffer, 8)]))
  }

  ghost predicate CausesAt(es: seq<Event>, j: nat, o: Observation)
    requires j < |es|
  {
    Causes(es[j], o) && Waiting(es[..j], o.id)
  }

  lemma ApplyCalls(s: State, e: Event, o: Observation)
    requires Readable(s, e) && o.IsCall()
    ensures o in Apply(s, e).log
       <==> o in s.log || (Causes(e, o) && o.id in s.tasks && s.tasks[o.id].listener)
  {
  }

  lemma CausesStep(es: seq<Event>, e: Event, o: Observation)
    ensures (exists j :: 0 <= j < |es + [e]| && CausesAt(es + [e], j, o))
       <==> (exists j :: 0 <= j < |es| && CausesAt(es, j, o)) || (Causes(e, o) && Waiting(es, o.id))
  {
    var fs := es + [e];
    forall j | 0 <= j < |es|
      ensures CausesAt(fs, j, o) <==> CausesAt(es, j, o)
    {
      assert fs[..j] == es[..j];
    }
    assert fs[..|es|] == es && fs[|es|] == e;
    assert CausesAt(fs, |es|, o) <==> Causes(e, o) && Waiting(es, o.id);
    if j :| 0 <= j < |es| && CausesAt(es, j, o) {
      assert CausesAt(fs, j, o);
    }
  }

  lemma {:induction false} CallsAreCaused(es: seq<Event>, o: Observation)
    requires AllAllowed(EMPTY, es) && o.IsCall()
    ensures o in Run(EMPTY, es).log <==> exists j :: 0 <= j < |es| && CausesAt(es, j, o)
    decreases |es|
  {
    if es != [] {
      var init, e := es[..|es| - 1], es[|es| - 1];
      assert es == init + [e];
      RunSplit(EMPTY, init, e);
      CallsAreCaused(init, o);
      ApplyCalls(Run(EMPTY, init), e, o);
      ListenerWaits(init, o.id);
      CausesStep(init, e, o);
    }
  }

  /** A listener is told success exactly when its outstanding task ends with ECT_OK, and
      an error with a code exactly when it ends with that code and another error type:
      every end is told, none is made up, and with LifecycleHolds each is told once. */
  lemma EndIsTold(es: seq<Event>, id: Uint32, code: int)
    requires AllAllowed(EMPTY, es)
    ensures OnSuccess(id) in Run(EMPTY, es).log
       <==> exists j, c :: 0 <= j < |es| && es[j] == OnTaskEnd(id, ECT_OK, c) && Waiting(es[..j], id)
    ensures OnError(id, code) in Run(EMPTY, es).log
       <==> exists j, t :: 0 <= j < |es| && t != ECT_OK && es[j] == OnTaskEnd(id, t, code) && Waiting(es[..j], id)
  {
    CallsAreCaused(es, OnSuccess(id));
    CallsAreCaused(es, OnError(id, code));
    SuccessAt(es, id);
    ErrorAt(es, id, code);
  }

  lemma SuccessAt(es: seq<Event>, id: Uint32)
    ensures (exists j :: 0 <= j < |es| && CausesAt(es, j, OnSuccess(id)))
       <==> exists j, c :: 0 <= j < |es| && es[j] == OnTaskEnd(id, ECT_OK, c) && Waiting(es[..j], id)
  {
    if j :| 0 <= j < |es| && CausesAt(es, j, OnSuccess(id)) {
      assert es[j] == OnTaskEnd(id, ECT_OK, es[j].errorCode);
    }
    if j, c :| 0 <= j < |es| && es[j] == OnTaskEnd(id, ECT_OK, c) && Waiting(es[..j], id) {
      assert CausesAt(es, j, OnSuccess(id));
    }
  }

  lemma ErrorAt(es: seq<Event>, id: Uint32, code: int)
    ensures (exists j :: 0 <= j < |es| && CausesAt(es, j, OnError(id, code)))
       <==> exists j, t :: 0 <= j < |es| && t != ECT_OK && es[j] == OnTaskEnd(id, t, code) && Waiting(es[..j], id)
  {
    if j :| 0 <= j < |es| && CausesAt(es, j, OnError(id, code)) {
      assert es[j] == OnTaskEnd(id, es[j].errorType, code);
    }
    if j, t :| 0 <= j < |es| && t != ECT_OK && es[j] == OnTaskEnd(id, t, code) && Waiting(es[..j], id) {
      assert CausesAt(es, j, OnError(id, code));
    }
  }

  /** A listener gets exactly the bodies of the responses that arrive while its task is
      outstanding: the bytes from 12 on that the field at 8 counts. */
  lemma ResponseIsTold(es: seq<Event>, id: Uint32, data: seq<Byte>)
    requires AllAllowed(EMPTY, es)
    ensures OnResponse(id, data) in Run(EMPTY, es).log
       <==> exists j, buf: seq<Byte> ::
              && 0 <= j < |es| && es[j] == Buf2Resp(id, buf) && Waiting(es[..j], id)
              && 12 <= |buf| && 12 + ReadUint32(buf, 8) <= |buf| && data == buf[12..12 + ReadUint32(buf, 8)]
  {
    CallsAreCaused(es, OnResponse(id, data));
    ResponseAt(es, id, data);
  }

  lemma ResponseAt(es: seq<Event>, id: Uint32, data: seq<Byte>)
    ensures (exists j :: 0 <= j < |es| && CausesAt(es, j, OnResponse(id, data)))
       <==> exists j, buf: seq<Byte> ::
              && 0 <= j < |es| && es[j] == Buf2Resp(id, buf) && Waiting(es[..j], id)
              && 12 <= |buf| && 12 + ReadUint32(buf, 8) <= |buf| && data == buf[12..12 + ReadUint32(buf, 8)]
  {
    if j :| 0 <= j < |es| && CausesAt(es, j, OnResponse(id, data)) {
      assert es[j] == Buf2Resp(id, es[j].inbuffer);
    }
    if j, buf: seq<Byte> :|
      && 0 <= j < |es| && es[j] == Buf2Resp(id, buf) && Waiting(es[..j], id)
      && 12 <= |buf| && 12 + ReadUint32(buf, 8) <= |buf| && data == buf[12..12 + ReadUint32(buf, 8)]
    {
      assert CausesAt(es, j, OnResponse(id, data));
    }
  }

  /** What a callback about an outstanding task does: a request yields the stored bytes,
      the frame of a response calls the listener with its body and is answered 0, or -1
      when nobody listens, and the end of the task is told with its outcome and takes
      this task, and no other, out of the table. */
  lemma OutstandingAnswers(es: seq<Event>, id: Uint32, task: Task, m: Uint32, body: seq<Byte>, rest: seq<Byte>,
                           errorType: int, code: int)
    requires AllAllowed(EMPTY, es) && Outstanding(es, id, task) && |body| <= MAX_INT
    ensures var s, e := Run(EMPTY, es), Buf2Resp(id, Frame(m, body) + rest);
            && Allowed(s, e)
            && Apply(s, e) == s.(log := s.log + if task.listener then [OnResponse(id, body), Response(id, 0)]
                                                else [Response(id, -1)])
    ensures var s := Run(EMPTY, es);
            Apply(s, OnTaskEnd(id, errorType, code)) ==
            State(s.tasks - {id}, s.stored,
                  s.log + if !task.listener then [TaskEnded(id)]
                          else if errorType == ECT_OK then [OnSuccess(id), TaskEnded(id)]
                          else [OnError(id, code), TaskEnded(id)])
    ensures var s := Run(EMPTY, es); Apply(s, Req2Buf(id)) == s.(log := s.log + [Request(id, task.message)])
  {
    TableIsOutstanding(es, id, task);
    FrameReadsBack(m, body, rest);
  }

  /** What the unpacker accepts, apart from a heartbeat, can be parsed as a response in
      every state; a heartbeat is no complete message. */
  lemma AcceptedIsReadable(packed: seq<Byte>, stale: L.Stale, cmdid: Uint32, bodyLen: nat)
    requires L.Tested(packed, stale, cmdid, bodyLen).verdict == L.Ok
    ensures |packed| != L.HEARTBEAT_BYTES <==> forall s, id :: Readable(s, Buf2Resp(id, packed))
  {
    L.OkMeansComplete(packed, stale, cmdid, bodyLen);
    var waiting := State(map[0 := Task(None, true)], {0}, []);
    assert Readable(waiting, Buf2Resp(0, packed)) <==> Complete(packed);
  }

  // ------------------------------------------------------------------ the heap

  /** The address of an allocated object; addresses are not used again. */
  type Ref = nat

  datatype TaskContext = TaskContext(msg: Option<Ref>, size: nat, listener: bool)

  type Table = map<Uint32, Ref>
  type Contexts = map<Ref, TaskContext>
  type Messages = map<Ref, seq<Byte>>

  /** A message as the building constructor leaves it. */
  predicate Whole(bytes: seq<Byte>) {
    Complete(bytes) && |bytes| == HEADER_SIZE + LenOf(bytes) < 0x1_0000_0000
  }

  lemma FrameIsWhole(id: Uint32, body: seq<Byte>)
    requires |body| <= MAX_INT
    ensures Whole(Frame(id, body)) && IdOf(Frame(id, body)) == id
  {
    FrameReadsBack(id, body, []);
    assert Frame(id, body) + [] == Frame(id, body);
  }

  ghost predicate AllWhole(messages: Messages) {
    forall m :: m in messages ==> Whole(messages[m])
  }

  /** Every entry owns a live context and its live message, each once. */
  ghost predicate Owned(table: Table, contexts: Contexts, messages: Messages, next: Ref) {
    && (forall id :: id in table ==> table[id] in contexts)
    && (forall c :: c in contexts ==> c < next && (contexts[c].msg.Some? ==> contexts[c].msg.value in messages))
    && (forall m :: m in messages ==> m < next)
    && (forall id, id' :: id in table && id' in table && id != id' ==> table[id] != table[id'])
    && (forall c, c' :: c in contexts && c' in contexts && c != c' && contexts[c].msg.Some?
          ==> contexts[c].msg != contexts[c'].msg)
  }

  /** What the table holds for a context. */
  ghost function TaskOf(c: TaskContext, messages: Messages): Task {
    Task(if c.msg.Some? && c.msg.value in messages then Some(messages[c.msg.value]) else None, c.listener)
  }

  ghost function TasksOf(table: Table, contexts: Contexts, messages: Messages): map<Uint32, Task>
    requires forall id :: id in table ==> table[id] in contexts
  {
    map id | id in table :: TaskOf(contexts[table[id]], messages)
  }

  /** No entry refers to this context. */
  ghost predicate Unlisted(table: Table, ctx: Ref) {
    forall id :: id in table ==> table[id] != ctx
  }

  lemma NewTaskOwned(table: Table, contexts: Contexts, messages: Messages, msg: Ref,
                     ctx: Ref, bytes: seq<Byte>, c: TaskContext)
    requires Owned(table, contexts, messages, msg) && c.msg == Some(msg) && ctx == msg + 1
    ensures Owned(table, contexts[ctx := c], messages[msg := bytes], msg + 2)
    ensures TasksOf(table, contexts[ctx := c], messages[msg := bytes]) == TasksOf(table, contexts, messages)
    ensures AllWhole(messages) && Whole(bytes) ==> AllWhole(messages[msg := bytes])
    ensures Unlisted(table, ctx)
    ensures TaskOf(contexts[ctx := c][ctx], messages[msg := bytes]) == Task(Some(bytes), c.listener)
  {
    NewMessageOwned(table, contexts, messages, msg, bytes);
    NewContextOwned(table, contexts, messages[msg := bytes], ctx, c);
  }

  lemma NewMessageOwned(table: Table, contexts: Contexts, messages: Messages, msg: Ref, bytes: seq<Byte>)
    requires Owned(table, contexts, messages, msg)
    ensures Owned(table, contexts, messages[msg := bytes], msg + 1)
    ensures TasksOf(table, contexts, messages[msg := bytes]) == TasksOf(table, contexts, messages)
    ensures forall c :: c in contexts ==> contexts[c].msg != Some(msg)
  {
    assert msg !in messages;
    forall id | id in table
      ensures TaskOf(contexts[table[id]], messages[msg := bytes]) == TaskOf(contexts[table[id]], messages)
    {
    }
  }

  lemma NewContextOwned(table: Table, contexts: Contexts, messages: Messages, ctx: Ref, c: TaskContext)
    requires Owned(table, contexts, messages, ctx) && c.msg.Some? && c.msg.value in messages
    requires forall d :: d in contexts ==> contexts[d].msg != c.msg
    ensures Owned(table, contexts[ctx := c], messages, ctx + 1) && Unlisted(table, ctx)
    ensures TasksOf(table, contexts[ctx := c], messages) == TasksOf(table, contexts, messages)
  {
    assert ctx !in contexts;
  }

  function Without(messages: Messages, c: TaskContext): Messages {
    if c.msg.Some? then messages - {c.msg.value} else messages
  }

  lemma RemoveOwned(table: Table, contexts: Contexts, messages: Messages, next: Ref, id: Uint32)
    requires Owned(table, contexts, messages, next) && id in table
    ensures Owned(table - {id}, contexts - {table[id]}, Without(messages, contexts[table[id]]), next)
    ensures TasksOf(table - {id}, contexts - {table[id]}, Without(messages, contexts[table[id]]))
         == TasksOf(table, contexts, messages) - {id}
  {
    var c := table[id];
    var messages' := Without(messages, contexts[c]);
    forall i | i in table && i != id
      ensures TaskOf(contexts[table[i]], messages') == TaskOf(contexts[table[i]], messages)
    {
      assert table[i] != c;
    }
  }

  // --------------------------------------------------------------- the classes

  /** The table, with the part of the heap it owns: the contexts and messages that
      have been allocated and not deleted. Reading or deleting an object requires it
      to be there. */
  class MarsTaskProxy {
    var table: Table
    var contexts: Contexts
    var messages: Messages
    var nextRef: Ref

    ghost predicate Valid()
      reads this
    {
      Owned(table, contexts, messages, nextRef) && AllWhole(messages)
    }

    ghost function Tasks(): map<Uint32, Task>
      requires Valid()
      reads this
    {
      TasksOf(table, contexts, messages)
    }

    constructor ()
      ensures Valid() && Tasks() == map[] && contexts == map[] && messages == map[]
    {
      table, contexts, messages, nextRef := map[], map[], map[], 0;
    }

    /** The two allocations of sendMessage: the message, and a context that owns it. */
    method NewTask(bytes: seq<Byte>, listener: bool) returns (ctx: Ref)
      requires Valid() && Whole(bytes)
      modifies this
      ensures Valid() && table == old(table) && Tasks() == old(Tasks())
      ensures ctx in contexts && Unlisted(table, ctx)
      ensures TaskOf(contexts[ctx], messages) == Task(Some(bytes), listener)
    {
      var msg := nextRef;
      ctx := nextRef + 1;
      var c := TaskContext(Some(msg), |bytes|, listener);
      NewTaskOwned(table, contexts, messages, msg, ctx, bytes, c);
      nextRef, messages, contexts := nextRef + 2, messages[msg := bytes], contexts[ctx := c];
      assert Owned(table, contexts, messages, nextRef) && AllWhole(messages);
    }

    /** The mutex makes this one atomic step. */
    method StoreContext(taskId: Uint32, ctx: Ref)
      requires Valid() && ctx in contexts && Unlisted(table, ctx)
      modifies this
      ensures Valid() && table == old(table)[taskId := ctx]
      ensures contexts == old(contexts) && messages == old(messages) && nextRef == old(nextRef)
      ensures Tasks() == old(Tasks())[taskId := TaskOf(contexts[ctx], messages)]
    {
      table := table[taskId := ctx];
      var temp := GetTaskContext(taskId);
    }

    /** The allocations of sendMessage and the store that follows them. */
    method StoreTask(taskId: Uint32, bytes: seq<Byte>, listener: bool)
      requires Valid() && Whole(bytes)
      modifies this
      ensures Valid() && Tasks() == old(Tasks())[taskId := Task(Some(bytes), listener)]
    {
      var ctx := NewTask(bytes, listener);
      StoreContext(taskId, ctx);
    }

    method GetTaskContext(msgId: Uint32) returns (ctx: Option<Ref>)
      ensures ctx == if msgId in table then Some(table[msgId]) else None
    {
      if msgId !in table {
        return None;
      }
      return Some(table[msgId]);
    }

    /** Frees the message, erases the entry and frees the context. */
    method RemoveTaskContext(msgId: Uint32)
      requires Valid()
      modifies this
      ensures Valid() && table == old(table) - {msgId} && nextRef == old(nextRef)
      ensures Tasks() == old(Tasks()) - {msgId}
      ensures contexts == if msgId in old(table) then old(contexts) - {old(table)[msgId]} else old(contexts)
      ensures messages == if msgId in old(table) then Without(old(messages), old(contexts)[old(table)[msgId]])
                          else old(messages)
    {
      var ctx := GetTaskContext(msgId);
      if ctx == None {
        return;
      }
      RemoveOwned(table, contexts, messages, nextRef, msgId);
      var msg := contexts[ctx.value].msg;
      if msg != None {
        messages := messages - {msg.value};
      }
      table := table - {msgId};
      contexts := contexts - {ctx.value};
    }
  }

  class StnCallBack {
    const proxy: MarsTaskProxy
    ghost var stored: set<Uint32>
    ghost var log: seq<Observation>

    ghost function Abs(): State
      requires proxy.Valid()
      reads this, proxy
    {
      State(proxy.Tasks(), stored, log)
    }

    constructor (p: MarsTaskProxy)
      requires p.Valid() && p.Tasks() == map[]
      ensures proxy == p && Abs() == EMPTY
    {
      proxy, stored, log := p, {}, [];
    }

    static method BuildMessage(body: seq<Byte>, ids: MessageIds) returns (id: Uint32, bytes: seq<Byte>)
      requires |body| <= MAX_INT
      modifies ids
      ensures id == old(ids.next) && ids.next == (id + 1) % 0x1_0000_0000
      ensures bytes == Frame(id, body) && Whole(bytes)
    {
      var msg := new ImMessage.Build(body, ids);
      bytes := msg.message[..];
      FrameIsWhole(old(ids.next), body);
      id := msg.GetMessageId();
    }

    /** marsPlus::sendMessage up to the start of the task: message and context are
        built and stored under the message's own id. */
    method SendMessage(body: seq<Byte>, callback: bool, ids: MessageIds) returns (taskId: Uint32)
      requires proxy.Valid() && |body| <= MAX_INT
      modifies this, proxy, ids
      ensures proxy.Valid() && taskId == old(ids.next)
      ensures Abs() == Apply(old(Abs()), Store(taskId, Task(Some(Frame(taskId, body)), callback)))
    {
      var bytes;
      taskId, bytes := BuildMessage(body, ids);
      proxy.StoreTask(taskId, bytes, callback);
      stored := stored + {taskId};
    }

    /** Writes the stored message, as many bytes as its header says, to the buffer. */
    method Req2Buf(taskId: Uint32, outbuffer0: seq<Byte>) returns (ok: bool, outbuffer: seq<Byte>)
      requires proxy.Valid()
      modifies this
      ensures Abs() == Apply(old(Abs()), Event.Req2Buf(taskId))
      ensures outbuffer0 <= outbuffer && (!ok ==> outbuffer == outbuffer0)
      ensures Abs().log == old(Abs()).log + [Request(taskId, if ok then Some(outbuffer[|outbuffer0|..]) else None)]
    {
      outbuffer := outbuffer0;
      var ctx := proxy.GetTaskContext(taskId);
      if ctx != None && proxy.contexts[ctx.value].msg != None {
        var msg := proxy.messages[proxy.contexts[ctx.value].msg.value];
        var size := (HEADER_SIZE + LenOf(msg)) % 0x1_0000_0000;
        outbuffer := outbuffer + msg[..size];
        assert outbuffer[|outbuffer0|..] == msg;
        log := log + [Request(taskId, Some(msg))];
        ok := true;
      } else {
        log := log + [Request(taskId, None)];
        ok := false;
      }
    }

    method Buf2Resp(taskId: Uint32, inbuffer: seq<Byte>) returns (code: int)
      requires proxy.Valid() && Readable(Abs(), Event.Buf2Resp(taskId, inbuffer))
      modifies this
      ensures Abs() == Apply(old(Abs()), Event.Buf2Resp(taskId, inbuffer))
      ensures Abs().log[|Abs().log| - 1] == Response(taskId, code)
    {
      var ctx := proxy.GetTaskContext(taskId);
      if ctx != None && proxy.contexts[ctx.value].listener {
        var message := new ImMessage.Blank();
        var parsed := message.Parse(inbuffer);
        var data := message.GetData();
        log := log + [OnResponse(taskId, data), Response(taskId, 0)];
        code := 0;
      } else {
        log := log + [Response(taskId, -1)];
        code := -1;
      }
    }

    /** A push is wrapped by the building constructor, not parsed: the listener gets
        the whole received buffer, header included, and a message id is used up. */
    method OnPush(body: seq<Byte>, pushListener: bool, ids: MessageIds) returns (pushed: Option<seq<Byte>>)
      requires |body| <= MAX_INT
      modifies ids
      ensures pushed == if pushListener then Some(body) else None
      ensures ids.next == (old(ids.next) + 1) % 0x1_0000_0000
    {
      var pushMessage := new ImMessage.Build(body, ids);
      FrameReadsBack(old(ids.next), body, []);
      assert Frame(old(ids.next), body) + [] == pushMessage.Raw();
      var valid := pushMessage.IsValid();
      pushed := None;
      if pushListener && valid {
        var data := pushMessage.GetData();
        pushed := Some(data);
      }
      pushMessage.Delete();
    }

    method OnTaskEnd(taskId: Uint32, errorType: int, errorCode: int) returns (code: int)
      requires proxy.Valid()
      modifies this, proxy
      ensures proxy.Valid() && code == 0
      ensures Abs() == Apply(old(Abs()), Event.OnTaskEnd(taskId, errorType, errorCode))
    {
      code := 0;
      var ctx := proxy.GetTaskContext(taskId);
      if ctx == None {
        log := log + [TaskEnded(taskId)];
        return;
      }
      if proxy.contexts[ctx.value].listener {
        if errorType == ECT_OK {
          log := log + [OnSuccess(taskId)];
        } else {
          log := log + [OnError(taskId, errorCode)];
        }
      }
      log := log + [TaskEnded(taskId)];
      proxy.RemoveTaskContext(taskId);
    }
  }
}
