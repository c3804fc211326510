/** The task table under threads: any number of threads that store tasks, and the
    engine's one callback thread, interleaved at every access to shared memory.
    Lookups happen outside the mutex and take two accesses, an insertion creates an
    empty entry first, and a message is freed before its entry is erased. The runs are
    shown to read and free only live objects and to look, from the outside, like
    callbacks that happen one at a time. */
module TaskInterleaving {
  import opened Wrappers
  import opened Bytes
  import opened ImMessage
  import P = TaskProxy

  type Ref = P.Ref
  type ThreadId = nat

  datatype Context = Context(msg: Ref, listener: bool)

  datatype Mutex = Free | HeldBy(tid: ThreadId) | HeldByCallback

  /** Where a thread is inside sendMessage and storeContext; idle threads are absent. */
  datatype Storer =
    | HasMessage(id: Uint32, msg: Ref, listener: bool)
    | HasContext(id: Uint32, ctx: Ref)
    | Locked(id: Uint32, ctx: Ref)
    | Created(id: Uint32, ctx: Ref)
    | Inserted(id: Uint32)
    | Seen(id: Uint32)
    | Checked
  {
    predicate OwnsContext() {
      HasContext? || Locked? || Created?
    }

    /** How many steps are to come at most. */
    function Rank(): nat {
      match this
      case HasMessage(_, _, _) => 7
      case HasContext(_, _) => 6
      case Locked(_, _) => 5
      case Created(_, _) => 4
      case Inserted(_) => 3
      case Seen(_) => 2
      case Checked => 1
    }

    predicate HoldsMutex() {
      Locked? || Created? || Inserted? || Seen? || Checked?
    }

    /** The id is in use by the thread but names no context in the table yet. */
    predicate Pending() {
      HasMessage? || OwnsContext()
    }
  }

  /** Where the callback thread is inside Req2Buf, Buf2Resp, OnTaskEnd and
      removeTaskContext. */
  datatype Callback =
    | Idle
    | ReqSeen(id: Uint32)
    | RespSeen(id: Uint32, inbuffer: seq<Byte>)
    | EndSeen(id: Uint32, errorType: int, errorCode: int)
    | ReqFound(id: Uint32, ctx: Ref)
    | ReqMessage(id: Uint32, msg: Ref)
    | RespFound(id: Uint32, ctx: Ref, inbuffer: seq<Byte>)
    | EndFound(id: Uint32, ctx: Ref, errorType: int, errorCode: int)
    | Notified(id: Uint32)
    | RemovalSeen(id: Uint32)
    | RemovalFound(id: Uint32, ctx: Ref)
    | RemovalMessage(id: Uint32, ctx: Ref, msg: Ref)
    | MessageFreed(id: Uint32, ctx: Ref)
    | RemovalLocked(id: Uint32, ctx: Ref)
    | Erased(ctx: Ref)
    | Unlocked(ctx: Ref)
  {
    /** How many steps are to come at most. */
    function Rank(): nat {
      match this
      case Idle => 0
      case ReqMessage(_, _) => 1
      case ReqFound(_, _) => 2
      case ReqSeen(_) => 3
      case RespFound(_, _, _) => 1
      case RespSeen(_, _) => 2
      case Unlocked(_) => 1
      case Erased(_) => 2
      case RemovalLocked(_, _) => 3
      case MessageFreed(_, _) => 4
      case RemovalMessage(_, _, _) => 5
      case RemovalFound(_, _) => 6
      case RemovalSeen(_) => 7
      case Notified(_) => 8
      case EndFound(_, _, _, _) => 9
      case EndSeen(_, _, _) => 10
    }

    predicate HoldsMutex() {
      RemovalLocked? || Erased?
    }

    /** The id has been found and its entry is still to be read. */
    predicate Looking() {
      ReqSeen? || RespSeen? || EndSeen?
    }

    /** The entry has been read and is still in the table. */
    predicate RefersToEntry() {
      ReqFound? || RespFound? || EndFound? || RemovalFound? || RemovalMessage? || MessageFreed? || RemovalLocked?
    }

    /** The task has ended for the listener, but its entry is still there. */
    predicate Ending() {
      Notified? || RemovalSeen? || RemovalFound? || RemovalMessage? || MessageFreed? || RemovalLocked?
    }

    /** The context outlives its entry. */
    predicate Removing() {
      Erased? || Unlocked?
    }

    /** The next step changes more than the thread's own position. */
    predicate Changing() {
      RemovalMessage? || MessageFreed? || HoldsMutex() || Removing()
    }

    predicate FreedMessageOf(c: Ref) {
      (MessageFreed? || RemovalLocked? || Removing()) && ctx == c
    }
  }

  datatype ContextOwner = ByThread(tid: ThreadId) | ByEntry(id: Uint32) | ByRemoval
  datatype MessageOwner = OfThread(tid: ThreadId) | OfContext(ctx: Ref)

  type Table = map<Uint32, Ref>
  type Contexts = map<Ref, Context>
  type Messages = map<Ref, seq<Byte>>
  type Threads = map<ThreadId, Storer>
  type ContextOwners = map<Ref, ContextOwner>
  type MessageOwners = map<Ref, MessageOwner>

  /** The shared memory and every thread's position. The task table consists of the
      entries in `table` and those in `empty`, which hold a null pointer. Objects that are allocated and
      not freed are the keys of `contexts` and `messages`; the owners, what was ever
      and freed sets and the ids are kept for the statements below. */
  datatype Machine = Machine(
    table: Table,
    empty: set<Uint32>,
    contexts: Contexts,
    messages: Messages,
    mutex: Mutex,
    storers: Threads,
    callback: Callback,
    next: Ref,
    contextOwner: ContextOwners,
    messageOwner: MessageOwners,
    born: set<Ref>,
    freed: set<Ref>,
    issued: set<Uint32>,
    stored: set<Uint32>,
    log: seq<P.Observation>)
  {
    predicate HasEntry(id: Uint32) {
      id in table || id in empty
    }
  }

  const INITIAL := Machine(map[], {}, map[], map[], Free, map[], Idle, 0, map[], map[], {}, {}, {}, {}, [])

  datatype Action =
    | NewMessage(tid: ThreadId, id: Uint32, body: seq<Byte>, listener: bool)
    | NewContext(tid: ThreadId)
    | Lock(tid: ThreadId)
    | Create(tid: ThreadId)
    | Insert(tid: ThreadId)
    | Check(tid: ThreadId)
    | Read(tid: ThreadId)
    | Unlock(tid: ThreadId)
    | BeginReq(id: Uint32)
    | BeginResp(id: Uint32, inbuffer: seq<Byte>)
    | BeginEnd(id: Uint32, errorType: int, errorCode: int)
    | Proceed

  /** An action that is not possible now, one that touches an object that is not live
      or adds an entry to the table in a lookup, or the next state. */
  datatype Result = Disabled | Crash | Next(machine: Machine)

  // ------------------------------------------------------------------- steps

  /** A step of a storing thread. The id of a new message is a fresh one. */
  function StorerStep(s: Machine, a: Action): Result
    requires !a.BeginReq? && !a.BeginResp? && !a.BeginEnd? && !a.Proceed?
  {
    if a.NewMessage? then
      if a.tid in s.storers || a.id in s.issued || |a.body| > MAX_INT then Disabled
      else Next(s.(storers := s.storers[a.tid := HasMessage(a.id, s.next, a.listener)],
                   messages := s.messages[s.next := Frame(a.id, a.body)],
                   messageOwner := s.messageOwner[s.next := OfThread(a.tid)],
                   born := s.born + {s.next}, next := s.next + 1,
                   issued := s.issued + {a.id}))
    else if a.tid !in s.storers then Disabled
    else
      match (a, s.storers[a.tid])
      case (NewContext(t), HasMessage(id, m, listener)) =>
        Next(s.(storers := s.storers[t := HasContext(id, s.next)],
                contexts := s.contexts[s.next := Context(m, listener)],
                contextOwner := s.contextOwner[s.next := ByThread(t)],
                messageOwner := s.messageOwner[m := OfContext(s.next)],
                born := s.born + {s.next}, next := s.next + 1))
      case (Lock(t), HasContext(id, c)) =>
        if s.mutex != Free then Disabled
        else Next(s.(storers := s.storers[t := Locked(id, c)], mutex := HeldBy(t)))
      case (Create(t), Locked(id, c)) =>
        Next(s.(storers := s.storers[t := Created(id, c)],
                empty := if id in s.table then s.empty else s.empty + {id}))
      case (Insert(t), Created(id, c)) =>
        Next(s.(storers := s.storers[t := Inserted(id)], table := s.table[id := c], empty := s.empty - {id},
                contextOwner := s.contextOwner[c := ByEntry(id)], stored := s.stored + {id}))
      case (Check(t), Inserted(id)) =>
        Next(s.(storers := s.storers[t := if s.HasEntry(id) then Seen(id) else Checked]))
      case (Read(t), Seen(id)) =>
        if s.HasEntry(id) then Next(s.(storers := s.storers[t := Checked])) else Crash
      case (Unlock(t), Checked) => Next(s.(storers := s.storers - {t}, mutex := Free))
      case _ => Disabled
  }

  function Search(a: Action): (cb: Callback)
    requires a.BeginReq? || a.BeginResp? || a.BeginEnd?
    ensures cb.Looking()
  {
    match a
    case BeginReq(id) => ReqSeen(id)
    case BeginResp(id, inbuffer) => RespSeen(id, inbuffer)
    case BeginEnd(id, t, code) => EndSeen(id, t, code)
  }

  /** The end of a callback whose lookup gives null. */
  function Failure(cb: Callback): seq<P.Observation> {
    match cb
    case ReqSeen(id) => [P.Request(id, None)]
    case RespSeen(id, _) => [P.Response(id, -1)]
    case EndSeen(id, _, _) => [P.TaskEnded(id)]
    case _ => []
  }

  function Found(cb: Callback, c: Ref): (cb': Callback)
    requires cb.Looking() || cb.RemovalSeen?
    ensures cb'.RefersToEntry() && cb'.id == cb.id && cb'.ctx == c
  {
    match cb
    case ReqSeen(id) => ReqFound(id, c)
    case RespSeen(id, inbuffer) => RespFound(id, c, inbuffer)
    case EndSeen(id, t, code) => EndFound(id, c, t, code)
    case RemovalSeen(id) => RemovalFound(id, c)
  }

  /** The task has been stored without a listener, so its response is never parsed. */
  predicate Unheard(table: Table, contexts: Contexts, id: Uint32) {
    id in table && table[id] in contexts && !contexts[table[id]].listener
  }

  /** The beginning of a callback: the search for the id, outside the mutex. The buffer
      of a response that is parsed holds a complete message. */
  function BeginStep(s: Machine, a: Action): Result
    requires a.BeginReq? || a.BeginResp? || a.BeginEnd?
  {
    var cb := Search(a);
    if s.callback != Idle then Disabled
    else if !s.HasEntry(cb.id) then Next(s.(log := s.log + Failure(cb)))
    else if cb.RespSeen? && !Complete(cb.inbuffer) && !Unheard(s.table, s.contexts, cb.id) then Disabled
    else Next(s.(callback := cb))
  }

  /** The read that completes a lookup: the pointer may still be null, and an id that
      is gone would be entered again, outside the mutex. */
  function LookupStep(s: Machine): Result
    requires s.callback.Looking() || s.callback.RemovalSeen?
  {
    var id := s.callback.id;
    if !s.HasEntry(id) then Crash
    else if id in s.table then Next(s.(callback := Found(s.callback, s.table[id])))
    else Next(s.(callback := Idle, log := s.log + Failure(s.callback)))
  }

  /** The next access of the callback under way. */
  function ProceedStep(s: Machine): Result {
    match s.callback
    case Idle => Disabled
    case ReqSeen(_) => LookupStep(s)
    case RespSeen(_, _) => LookupStep(s)
    case EndSeen(_, _, _) => LookupStep(s)
    case RemovalSeen(_) => LookupStep(s)
    case ReqFound(id, c) =>
      if c !in s.contexts then Crash
      else Next(s.(callback := ReqMessage(id, s.contexts[c].msg)))
    case ReqMessage(id, m) =>
      if m !in s.messages then Crash
      else Next(s.(callback := Idle, log := s.log + [P.Request(id, Some(s.messages[m]))]))
    case RespFound(id, c, inbuffer) =>
      if c !in s.contexts || (s.contexts[c].listener && !Complete(inbuffer)) then Crash
      else Next(s.(callback := Idle,
                   log := s.log + if s.contexts[c].listener then [P.OnResponse(id, DataOf(inbuffer)), P.Response(id, 0)]
                                  else [P.Response(id, -1)]))
    case EndFound(id, c, t, code) =>
      if c !in s.contexts then Crash
      else Next(s.(callback := Notified(id),
                   log := s.log + (if s.contexts[c].listener then [P.EndCall(P.OnTaskEnd(id, t, code))] else [])
                                + [P.TaskEnded(id)]))
    case Notified(id) =>
      Next(s.(callback := if s.HasEntry(id) then RemovalSeen(id) else Idle))
    case RemovalFound(id, c) =>
      if c !in s.contexts then Crash
      else Next(s.(callback := RemovalMessage(id, c, s.contexts[c].msg)))
    case RemovalMessage(id, c, m) =>
      if m !in s.messages then Crash
      else Next(s.(callback := MessageFreed(id, c), messages := s.messages - {m},
                   messageOwner := s.messageOwner - {m}, freed := s.freed + {m}))
    case MessageFreed(id, c) =>
      if s.mutex != Free then Disabled
      else Next(s.(callback := RemovalLocked(id, c), mutex := HeldByCallback))
    case RemovalLocked(id, c) =>
      Next(s.(callback := Erased(c), table := s.table - {id}, empty := s.empty - {id},
              contextOwner := s.contextOwner[c := ByRemoval]))
    case Erased(c) => Next(s.(callback := Unlocked(c), mutex := Free))
    case Unlocked(c) =>
      if c !in s.contexts then Crash
      else Next(s.(callback := Idle, contexts := s.contexts - {c},
                   contextOwner := s.contextOwner - {c}, freed := s.freed + {c}))
  }

  function Step(s: Machine, a: Action): Result {
    if a.Proceed? then ProceedStep(s)
    else if a.BeginReq? || a.BeginResp? || a.BeginEnd? then BeginStep(s, a)
    else StorerStep(s, a)
  }

  // --------------------------------------------------------------- invariants

  /** Conservation: what has been allocated is live or freed, never both. */
  ghost predicate Accounted(contexts: Contexts, messages: Messages, born: set<Ref>, freed: set<Ref>, next: Ref) {
    && born == contexts.Keys + messages.Keys + freed
    && freed !! contexts.Keys && freed !! messages.Keys && contexts.Keys !! messages.Keys
    && (forall r :: r in born ==> r < next)
  }

  /** Exactly the live objects have an owner. */
  ghost predicate AllOwned(contexts: Contexts, messages: Messages,
                           contextOwner: ContextOwners, messageOwner: MessageOwners) {
    contextOwner.Keys == contexts.Keys && messageOwner.Keys == messages.Keys
  }

  ghost predicate Owns<O(!new)>(owner: map<Ref, O>, r: Ref, o: O) {
    r in owner && owner[r] == o
  }

  /** An entry owns the context it names, and a context owned by an entry is named by it. */
  ghost predicate EntriesOwn(table: Table, owner: ContextOwners) {
    && (forall id :: id in table ==> Owns(owner, table[id], ByEntry(id)))
    && (forall c :: c in owner && owner[c].ByEntry? ==> owner[c].id in table && table[owner[c].id] == c)
  }

  ghost predicate ThreadsOwnContexts(storers: Threads, owner: ContextOwners) {
    && (forall t :: t in storers && storers[t].OwnsContext() ==> Owns(owner, storers[t].ctx, ByThread(t)))
    && (forall c :: c in owner && owner[c].ByThread? ==>
          owner[c].tid in storers && storers[owner[c].tid].OwnsContext() && storers[owner[c].tid].ctx == c)
  }

  ghost predicate ThreadsOwnMessages(storers: Threads, owner: MessageOwners) {
    && (forall t :: t in storers && storers[t].HasMessage? ==> Owns(owner, storers[t].msg, OfThread(t)))
    && (forall m :: m in owner && owner[m].OfThread? ==>
          owner[m].tid in storers && storers[owner[m].tid].HasMessage? && storers[owner[m].tid].msg == m)
  }

  /** A live context owns its message, except while the callback thread has freed the
      message and not yet the context. */
  ghost predicate ContextsOwn(contexts: Contexts, owner: MessageOwners, cb: Callback) {
    && (forall c :: c in contexts && !cb.FreedMessageOf(c) ==> Owns(owner, contexts[c].msg, OfContext(c)))
    && (forall m :: m in owner && owner[m].OfContext? ==>
          owner[m].ctx in contexts && contexts[owner[m].ctx].msg == m && !cb.FreedMessageOf(owner[m].ctx))
  }

  /** What the callback thread holds on to is still there. */
  ghost predicate CallbackKnows(cb: Callback, table: Table, empty: set<Uint32>, contexts: Contexts) {
    && (cb.Looking() ==> cb.id in table || cb.id in empty)
    && (cb.RefersToEntry() ==> cb.id in table && table[cb.id] == cb.ctx)
    && (cb.Notified? || cb.RemovalSeen? || cb.ReqMessage? ==> cb.id in table)
    && (cb.ReqMessage? ==> table[cb.id] in contexts && contexts[table[cb.id]].msg == cb.msg)
    && (cb.RemovalMessage? ==> cb.ctx in contexts && contexts[cb.ctx].msg == cb.msg)
    && (cb.RespSeen? || cb.RespFound? ==> Complete(cb.inbuffer) || Unheard(table, contexts, cb.id))
  }

  ghost predicate RemovalOwns(cb: Callback, owner: ContextOwners) {
    && (cb.Removing() ==> Owns(owner, cb.ctx, ByRemoval))
    && (forall c :: c in owner && owner[c] == ByRemoval ==> cb.Removing() && cb.ctx == c)
  }

  ghost predicate MutexHeld(mutex: Mutex, cb: Callback, storers: Threads) {
    && (mutex == HeldByCallback <==> cb.HoldsMutex())
    && (forall t :: t in storers && storers[t].HoldsMutex() ==> mutex == HeldBy(t))
    && (mutex.HeldBy? ==> mutex.tid in storers && storers[mutex.tid].HoldsMutex())
  }

  /** An entry stays until the thread that stored it has read it back. */
  ghost predicate ThreadsKnow(storers: Threads, table: Table) {
    forall t :: t in storers && (storers[t].Inserted? || storers[t].Seen?) ==> storers[t].id in table
  }

  ghost predicate IdsFresh(table: Table, stored: set<Uint32>, issued: set<Uint32>, storers: Threads) {
    && table.Keys <= stored <= issued
    && (forall t :: t in storers && storers[t].Pending() ==> storers[t].id in issued && storers[t].id !in stored)
    && (forall t, u :: t in storers && u in storers && t != u && storers[t].Pending() && storers[u].Pending()
          ==> storers[t].id != storers[u].id)
  }

  ghost predicate Inv(s: Machine) {
    && Accounted(s.contexts, s.messages, s.born, s.freed, s.next)
    && AllOwned(s.contexts, s.messages, s.contextOwner, s.messageOwner)
    && EntriesOwn(s.table, s.contextOwner)
    && ThreadsOwnContexts(s.storers, s.contextOwner)
    && ThreadsOwnMessages(s.storers, s.messageOwner)
    && ContextsOwn(s.contexts, s.messageOwner, s.callback)
    && CallbackKnows(s.callback, s.table, s.empty, s.contexts)
    && RemovalOwns(s.callback, s.contextOwner)
    && MutexHeld(s.mutex, s.callback, s.storers)
    && ThreadsKnow(s.storers, s.table)
    && IdsFresh(s.table, s.stored, s.issued, s.storers)
  }

  // ------------------------------------------------------------------- safety

  /** The context that the callback thread found in the table is live, and so is its
      message until the callback thread frees it. */
  lemma EntryIsLive(s: Machine, id: Uint32)
    requires Inv(s) && id in s.table
    ensures s.table[id] in s.contexts
    ensures !s.callback.FreedMessageOf(s.table[id]) ==> s.contexts[s.table[id]].msg in s.messages
  {
    var c := s.table[id];
    assert Owns(s.contextOwner, c, ByEntry(id));
    assert !s.callback.FreedMessageOf(c) ==> Owns(s.messageOwner, s.contexts[c].msg, OfContext(c));
  }

  lemma ThreadSafe(s: Machine, a: Action)
    requires !a.BeginReq? && !a.BeginResp? && !a.BeginEnd? && !a.Proceed? && ThreadsKnow(s.storers, s.table)
    ensures !StorerStep(s, a).Crash?
  {
  }

  lemma ProceedSafe(s: Machine)
    requires CallbackKnows(s.callback, s.table, s.empty, s.contexts)
    requires s.callback.RefersToEntry() || s.callback.ReqMessage? ==> s.table[s.callback.id] in s.contexts
    requires s.callback.ReqMessage? || s.callback.RemovalMessage? ==> s.callback.msg in s.messages
    requires s.callback.Unlocked? ==> s.callback.ctx in s.contexts
    ensures !ProceedStep(s).Crash?
  {
  }

  /** No step from a state that satisfies the invariant reads or frees an object that
      is not live, and no lookup adds an entry. */
  lemma NoCrash(s: Machine, a: Action)
    requires Inv(s)
    ensures !Step(s, a).Crash?
  {
    if a.Proceed? {
      if s.callback.RefersToEntry() || s.callback.ReqMessage? {
        EntryIsLive(s, s.callback.id);
      } else if s.callback.Unlocked? {
        assert Owns(s.contextOwner, s.callback.ctx, ByRemoval);
      }
      ProceedSafe(s);
    } else if !a.BeginReq? && !a.BeginResp? && !a.BeginEnd? {
      ThreadSafe(s, a);
    }
  }

  // What each kind of change does to the parts of the invariant.

  lemma AllocateMessage(contexts: Contexts, messages: Messages, born: set<Ref>, freed: set<Ref>,
                        m: Ref, bytes: seq<Byte>)
    requires Accounted(contexts, messages, born, freed, m)
    ensures Accounted(contexts, messages[m := bytes], born + {m}, freed, m + 1)
    ensures m !in contexts && m !in messages
  {
    assert m !in born;
  }

  lemma AllocateContext(contexts: Contexts, messages: Messages, born: set<Ref>, freed: set<Ref>, c: Ref, x: Context)
    requires Accounted(contexts, messages, born, freed, c)
    ensures Accounted(contexts[c := x], messages, born + {c}, freed, c + 1)
    ensures c !in contexts && c !in messages
  {
    assert c !in born;
  }

  lemma FreeMessage(contexts: Contexts, messages: Messages, born: set<Ref>, freed: set<Ref>, next: Ref, m: Ref)
    requires Accounted(contexts, messages, born, freed, next) && m in messages
    ensures Accounted(contexts, messages - {m}, born, freed + {m}, next)
  {
  }

  lemma FreeContext(contexts: Contexts, messages: Messages, born: set<Ref>, freed: set<Ref>, next: Ref, c: Ref)
    requires Accounted(contexts, messages, born, freed, next) && c in contexts
    ensures Accounted(contexts - {c}, messages, born, freed + {c}, next)
  {
  }

  lemma SameKeys<V, O>(m: map<Ref, V>, owner: map<Ref, O>, r: Ref, v: V, o: O)
    requires owner.Keys == m.Keys
    ensures owner[r := o].Keys == m[r := v].Keys
    ensures (owner - {r}).Keys == (m - {r}).Keys
    ensures r in m ==> owner[r := o].Keys == m.Keys
  {
  }

  lemma ThreadGetsMessage(storers: Threads, owner: MessageOwners, t: ThreadId, x: Storer)
    requires ThreadsOwnMessages(storers, owner) && t !in storers && x.HasMessage? && x.msg !in owner
    ensures ThreadsOwnMessages(storers[t := x], owner[x.msg := OfThread(t)])
  {
  }

  lemma ThreadGivesMessage(storers: Threads, owner: MessageOwners, t: ThreadId, x: Storer, c: Ref)
    requires ThreadsOwnMessages(storers, owner) && t in storers && storers[t].HasMessage? && !x.HasMessage?
    ensures ThreadsOwnMessages(storers[t := x], owner[storers[t].msg := OfContext(c)])
  {
    var m := storers[t].msg;
    assert Owns(owner, m, OfThread(t));
    forall u | u in storers && u != t && storers[u].HasMessage?
      ensures storers[u].msg != m
    {
      assert Owns(owner, storers[u].msg, OfThread(u));
    }
  }

  lemma MessageLeavesContext(storers: Threads, owner: MessageOwners, m: Ref)
    requires ThreadsOwnMessages(storers, owner) && m in owner && owner[m].OfContext?
    ensures ThreadsOwnMessages(storers, owner - {m})
  {
    forall t | t in storers && storers[t].HasMessage?
      ensures Owns(owner - {m}, storers[t].msg, OfThread(t))
    {
      assert Owns(owner, storers[t].msg, OfThread(t));
    }
  }

  lemma ThreadGetsContext(storers: Threads, owner: ContextOwners, t: ThreadId, x: Storer)
    requires ThreadsOwnContexts(storers, owner) && (t in storers ==> !storers[t].OwnsContext())
    requires x.OwnsContext() && x.ctx !in owner
    ensures ThreadsOwnContexts(storers[t := x], owner[x.ctx := ByThread(t)])
  {
  }

  lemma ThreadGivesContext(storers: Threads, owner: ContextOwners, t: ThreadId, x: Storer, id: Uint32)
    requires ThreadsOwnContexts(storers, owner) && t in storers && storers[t].OwnsContext() && !x.OwnsContext()
    ensures ThreadsOwnContexts(storers[t := x], owner[storers[t].ctx := ByEntry(id)])
  {
    var c := storers[t].ctx;
    assert Owns(owner, c, ByThread(t));
    forall u | u in storers && u != t && storers[u].OwnsContext()
      ensures storers[u].ctx != c
    {
      assert Owns(owner, storers[u].ctx, ByThread(u));
    }
  }

  /** Contexts that no thread owns may change owner or be freed. */
  lemma OthersContexts(storers: Threads, owner: ContextOwners, c: Ref, o: ContextOwner)
    requires ThreadsOwnContexts(storers, owner) && c in owner && !owner[c].ByThread? && !o.ByThread?
    ensures ThreadsOwnContexts(storers, owner[c := o]) && ThreadsOwnContexts(storers, owner - {c})
  {
    forall t | t in storers && storers[t].OwnsContext()
      ensures storers[t].ctx != c
    {
      assert Owns(owner, storers[t].ctx, ByThread(t));
    }
  }

  /** A thread moves on and owns what it owned before. */
  lemma ThreadMoves(storers: Threads, owner: ContextOwners, mowner: MessageOwners, t: ThreadId, x: Storer)
    requires ThreadsOwnContexts(storers, owner) && ThreadsOwnMessages(storers, mowner)
    requires t in storers && !storers[t].HasMessage? && !x.HasMessage?
    requires x.OwnsContext() == storers[t].OwnsContext() && (x.OwnsContext() ==> x.ctx == storers[t].ctx)
    ensures ThreadsOwnContexts(storers[t := x], owner) && ThreadsOwnMessages(storers[t := x], mowner)
  {
  }

  lemma ThreadLeaves(storers: Threads, owner: ContextOwners, mowner: MessageOwners, t: ThreadId)
    requires ThreadsOwnContexts(storers, owner) && ThreadsOwnMessages(storers, mowner)
    requires t in storers && !storers[t].HasMessage? && !storers[t].OwnsContext()
    ensures ThreadsOwnContexts(storers - {t}, owner) && ThreadsOwnMessages(storers - {t}, mowner)
  {
  }

  lemma EntryGetsContext(table: Table, owner: ContextOwners, id: Uint32, c: Ref)
    requires EntriesOwn(table, owner) && id !in table && c in owner && !owner[c].ByEntry?
    ensures EntriesOwn(table[id := c], owner[c := ByEntry(id)])
  {
    forall i | i in table
      ensures table[i] != c
    {
      assert Owns(owner, table[i], ByEntry(i));
    }
  }

  lemma EntryGivesContext(table: Table, owner: ContextOwners, id: Uint32, o: ContextOwner)
    requires EntriesOwn(table, owner) && id in table && !o.ByEntry?
    ensures EntriesOwn(table - {id}, owner[table[id] := o])
  {
    assert Owns(owner, table[id], ByEntry(id));
    forall i | i in table && i != id
      ensures Owns(owner[table[id] := o], table[i], ByEntry(i))
    {
      assert Owns(owner, table[i], ByEntry(i));
    }
  }

  /** Contexts that no entry owns may appear and disappear. */
  lemma OthersEntries(table: Table, owner: ContextOwners, c: Ref, o: ContextOwner)
    requires EntriesOwn(table, owner) && (c in owner ==> !owner[c].ByEntry?) && !o.ByEntry?
    ensures EntriesOwn(table, owner[c := o]) && EntriesOwn(table, owner - {c})
  {
    forall i | i in table
      ensures table[i] != c
    {
      assert Owns(owner, table[i], ByEntry(i));
    }
  }

  lemma ContextGetsMessage(contexts: Contexts, owner: MessageOwners, cb: Callback, c: Ref, x: Context)
    requires ContextsOwn(contexts, owner, cb) && c !in contexts && !cb.FreedMessageOf(c)
    requires x.msg in owner && !owner[x.msg].OfContext?
    ensures ContextsOwn(contexts[c := x], owner[x.msg := OfContext(c)], cb)
  {
    forall d | d in contexts && !cb.FreedMessageOf(d)
      ensures contexts[d].msg != x.msg
    {
      assert Owns(owner, contexts[d].msg, OfContext(d));
    }
  }

  lemma ContextLosesMessage(contexts: Contexts, owner: MessageOwners, cb: Callback, cb': Callback, c: Ref)
    requires ContextsOwn(contexts, owner, cb) && c in contexts
    requires forall d :: !cb.FreedMessageOf(d)
    requires forall d :: cb'.FreedMessageOf(d) <==> d == c
    ensures ContextsOwn(contexts, owner - {contexts[c].msg}, cb')
  {
    forall d | d in contexts && d != c
      ensures Owns(owner - {contexts[c].msg}, contexts[d].msg, OfContext(d))
    {
      assert Owns(owner, contexts[d].msg, OfContext(d)) && Owns(owner, contexts[c].msg, OfContext(c));
    }
  }

  lemma OthersMessages(contexts: Contexts, owner: MessageOwners, cb: Callback, m: Ref, t: ThreadId)
    requires ContextsOwn(contexts, owner, cb) && m !in owner
    ensures ContextsOwn(contexts, owner[m := OfThread(t)], cb)
  {
    forall c | c in contexts && !cb.FreedMessageOf(c)
      ensures Owns(owner[m := OfThread(t)], contexts[c].msg, OfContext(c))
    {
      assert Owns(owner, contexts[c].msg, OfContext(c));
    }
  }

  lemma ContextGone(contexts: Contexts, owner: MessageOwners, cb: Callback, c: Ref)
    requires ContextsOwn(contexts, owner, cb) && forall d :: cb.FreedMessageOf(d) <==> d == c
    ensures ContextsOwn(contexts - {c}, owner, Idle)
  {
  }

  /** The callback thread moves on and keeps what it holds. */
  lemma CallbackMoves(s: Machine, cb: Callback)
    requires ContextsOwn(s.contexts, s.messageOwner, s.callback) && RemovalOwns(s.callback, s.contextOwner)
    requires MutexHeld(s.mutex, s.callback, s.storers)
    requires cb.HoldsMutex() == s.callback.HoldsMutex()
    requires forall c :: cb.FreedMessageOf(c) == s.callback.FreedMessageOf(c)
    requires cb.Removing() == s.callback.Removing() && (cb.Removing() ==> cb.ctx == s.callback.ctx)
    ensures ContextsOwn(s.contexts, s.messageOwner, cb) && RemovalOwns(cb, s.contextOwner)
    ensures MutexHeld(s.mutex, cb, s.storers)
  {
  }

  /** The same when it takes or releases the mutex. */
  lemma CallbackLocks(s: Machine, cb: Callback, mutex: Mutex)
    requires ContextsOwn(s.contexts, s.messageOwner, s.callback) && RemovalOwns(s.callback, s.contextOwner)
    requires MutexHeld(s.mutex, s.callback, s.storers)
    requires s.mutex == (if cb.HoldsMutex() then Free else HeldByCallback)
    requires mutex == (if cb.HoldsMutex() then HeldByCallback else Free)
    requires forall c :: cb.FreedMessageOf(c) == s.callback.FreedMessageOf(c)
    requires cb.Removing() == s.callback.Removing() && (cb.Removing() ==> cb.ctx == s.callback.ctx)
    ensures ContextsOwn(s.contexts, s.messageOwner, cb) && RemovalOwns(cb, s.contextOwner)
    ensures MutexHeld(mutex, cb, s.storers)
  {
  }

  /** A context that the callback thread is removing, or the message of which it has
      freed, is live. */
  lemma CallbackContextLive(s: Machine, c: Ref)
    requires EntriesOwn(s.table, s.contextOwner) && CallbackKnows(s.callback, s.table, s.empty, s.contexts)
    requires RemovalOwns(s.callback, s.contextOwner)
    requires (s.callback.RefersToEntry() || s.callback.Removing()) && s.callback.ctx == c
    ensures c in s.contextOwner
    ensures s.callback.RefersToEntry() ==> s.contextOwner[c] == ByEntry(s.callback.id)
  {
    if s.callback.RefersToEntry() {
      assert Owns(s.contextOwner, s.table[s.callback.id], ByEntry(s.callback.id));
    } else {
      assert Owns(s.contextOwner, c, ByRemoval);
    }
  }

  lemma CallbackSeesNew(cb: Callback, table: Table, empty: set<Uint32>, contexts: Contexts,
                        c: Ref, x: Context, id: Uint32)
    requires CallbackKnows(cb, table, empty, contexts)
    ensures c !in contexts ==> CallbackKnows(cb, table, empty, contexts[c := x])
    ensures CallbackKnows(cb, table, empty + {id}, contexts)
    ensures id !in table ==> CallbackKnows(cb, table[id := c], empty - {id}, contexts)
  {
  }

  lemma RemovalUndisturbed(cb: Callback, owner: ContextOwners, c: Ref, o: ContextOwner)
    requires RemovalOwns(cb, owner) && (c in owner ==> owner[c] != ByRemoval) && o != ByRemoval
    ensures RemovalOwns(cb, owner[c := o])
  {
    if cb.Removing() {
      assert Owns(owner, cb.ctx, ByRemoval);
    }
  }

  lemma RemovalStarts(cb: Callback, owner: ContextOwners, c: Ref)
    requires RemovalOwns(cb, owner) && !cb.Removing()
    ensures RemovalOwns(Erased(c), owner[c := ByRemoval])
  {
  }

  lemma RemovalEnds(cb: Callback, owner: ContextOwners, c: Ref)
    requires RemovalOwns(cb, owner) && cb == Unlocked(c)
    ensures RemovalOwns(Idle, owner - {c})
  {
  }

  lemma MutexKept(mutex: Mutex, cb: Callback, storers: Threads, t: ThreadId, x: Storer)
    requires MutexHeld(mutex, cb, storers)
    requires x.HoldsMutex() == (t in storers && storers[t].HoldsMutex())
    ensures MutexHeld(mutex, cb, storers[t := x])
  {
  }

  lemma MutexTaken(mutex: Mutex, cb: Callback, storers: Threads, t: ThreadId, x: Storer)
    requires MutexHeld(mutex, cb, storers) && mutex == Free && x.HoldsMutex()
    ensures MutexHeld(HeldBy(t), cb, storers[t := x])
  {
  }

  lemma MutexReleased(mutex: Mutex, cb: Callback, storers: Threads, t: ThreadId)
    requires MutexHeld(mutex, cb, storers) && t in storers && storers[t].HoldsMutex()
    ensures MutexHeld(Free, cb, storers - {t})
  {
  }

  lemma IdIssued(table: Table, stored: set<Uint32>, issued: set<Uint32>, storers: Threads, t: ThreadId, x: Storer)
    requires IdsFresh(table, stored, issued, storers) && x.Pending() && x.id !in issued
    ensures IdsFresh(table, stored, issued + {x.id}, storers[t := x])
  {
  }

  lemma IdKept(table: Table, stored: set<Uint32>, issued: set<Uint32>, storers: Threads, t: ThreadId, x: Storer)
    requires IdsFresh(table, stored, issued, storers) && t in storers
    requires x.Pending() ==> storers[t].Pending() && x.id == storers[t].id
    ensures IdsFresh(table, stored, issued, storers[t := x]) && IdsFresh(table, stored, issued, storers - {t})
  {
  }

  lemma IdStored(table: Table, stored: set<Uint32>, issued: set<Uint32>, storers: Threads,
                 t: ThreadId, x: Storer, c: Ref)
    requires IdsFresh(table, stored, issued, storers) && t in storers && storers[t].Pending() && !x.Pending()
    ensures IdsFresh(table[storers[t].id := c], stored + {storers[t].id}, issued, storers[t := x])
    ensures storers[t].id !in table
  {
  }

  lemma IdErased(table: Table, stored: set<Uint32>, issued: set<Uint32>, storers: Threads, id: Uint32)
    requires IdsFresh(table, stored, issued, storers)
    ensures IdsFresh(table - {id}, stored, issued, storers)
  {
  }

  // The steps one by one, each as the change it makes to the machine.

  lemma NewMessageKeeps(s: Machine, s': Machine, t: ThreadId, id: Uint32, bytes: seq<Byte>, listener: bool)
    requires Inv(s) && t !in s.storers && id !in s.issued
    requires s' == s.(storers := s.storers[t := HasMessage(id, s.next, listener)],
                   messages := s.messages[s.next := bytes],
                   messageOwner := s.messageOwner[s.next := OfThread(t)],
                   born := s.born + {s.next}, next := s.next + 1, issued := s.issued + {id})
    ensures Inv(s')
  {
    var m, x := s.next, HasMessage(id, s.next, listener);
    AllocateMessage(s.contexts, s.messages, s.born, s.freed, m, bytes);
    SameKeys(s.messages, s.messageOwner, m, bytes, OfThread(t));
    FreshThread(s.storers, s.contextOwner, t, x);
    ThreadGetsMessage(s.storers, s.messageOwner, t, x);
    OthersMessages(s.contexts, s.messageOwner, s.callback, m, t);
    MutexKept(s.mutex, s.callback, s.storers, t, x);
    ThreadSees(s.storers, s.table, t, x);
    IdIssued(s.table, s.stored, s.issued, s.storers, t, x);
  }

  lemma FreshThread(storers: Threads, owner: ContextOwners, t: ThreadId, x: Storer)
    requires ThreadsOwnContexts(storers, owner) && t !in storers && !x.OwnsContext()
    ensures ThreadsOwnContexts(storers[t := x], owner)
  {
  }

  lemma NewContextKeeps(s: Machine, s': Machine, t: ThreadId)
    requires Inv(s) && t in s.storers && s.storers[t].HasMessage?
    requires var HasMessage(id, m, listener) := s.storers[t];
            s' == s.(storers := s.storers[t := HasContext(id, s.next)],
                   contexts := s.contexts[s.next := Context(m, listener)],
                   contextOwner := s.contextOwner[s.next := ByThread(t)],
                   messageOwner := s.messageOwner[m := OfContext(s.next)],
                   born := s.born + {s.next}, next := s.next + 1)
    ensures Inv(s')
  {
    var HasMessage(id, m, listener) := s.storers[t];
    var c, x, ctx := s.next, HasContext(id, s.next), Context(m, listener);
    AllocateContext(s.contexts, s.messages, s.born, s.freed, c, ctx);
    MessageHandedOver(s, t, x, c, ctx);
    ContextTaken(s, t, x, c, ctx);
    ThreadStaysPut(s, t, x, c, ctx);
  }

  lemma ThreadStaysPut(s: Machine, t: ThreadId, x: Storer, c: Ref, ctx: Context)
    requires CallbackKnows(s.callback, s.table, s.empty, s.contexts) && MutexHeld(s.mutex, s.callback, s.storers)
    requires ThreadsKnow(s.storers, s.table) && IdsFresh(s.table, s.stored, s.issued, s.storers)
    requires t in s.storers && s.storers[t].HasMessage? && c !in s.contexts && x == HasContext(s.storers[t].id, c)
    ensures CallbackKnows(s.callback, s.table, s.empty, s.contexts[c := ctx])
    ensures MutexHeld(s.mutex, s.callback, s.storers[t := x])
    ensures ThreadsKnow(s.storers[t := x], s.table) && IdsFresh(s.table, s.stored, s.issued, s.storers[t := x])
  {
    CallbackSeesNew(s.callback, s.table, s.empty, s.contexts, c, ctx, x.id);
    MutexKept(s.mutex, s.callback, s.storers, t, x);
    ThreadSees(s.storers, s.table, t, x);
    IdKept(s.table, s.stored, s.issued, s.storers, t, x);
  }

  lemma ContextTaken(s: Machine, t: ThreadId, x: Storer, c: Ref, ctx: Context)
    requires Inv(s) && t in s.storers && s.storers[t].HasMessage? && c !in s.contexts && x.OwnsContext() && x.ctx == c
    ensures EntriesOwn(s.table, s.contextOwner[c := ByThread(t)])
    ensures ThreadsOwnContexts(s.storers[t := x], s.contextOwner[c := ByThread(t)])
    ensures RemovalOwns(s.callback, s.contextOwner[c := ByThread(t)])
    ensures s.contextOwner[c := ByThread(t)].Keys == s.contexts[c := ctx].Keys
  {
    SameKeys(s.contexts, s.contextOwner, c, ctx, ByThread(t));
    OthersEntries(s.table, s.contextOwner, c, ByThread(t));
    ThreadGetsContext(s.storers, s.contextOwner, t, x);
    RemovalUndisturbed(s.callback, s.contextOwner, c, ByThread(t));
  }

  lemma MessageHandedOver(s: Machine, t: ThreadId, x: Storer, c: Ref, ctx: Context)
    requires Inv(s) && t in s.storers && s.storers[t].HasMessage? && s.storers[t].msg == ctx.msg
    requires c !in s.contexts && !x.HasMessage?
    ensures ThreadsOwnMessages(s.storers[t := x], s.messageOwner[ctx.msg := OfContext(c)])
    ensures ContextsOwn(s.contexts[c := ctx], s.messageOwner[ctx.msg := OfContext(c)], s.callback)
    ensures s.messageOwner[ctx.msg := OfContext(c)].Keys == s.messages.Keys
  {
    assert Owns(s.messageOwner, ctx.msg, OfThread(t));
    SameKeys(s.messages, s.messageOwner, ctx.msg, [], OfContext(c));
    ThreadGivesMessage(s.storers, s.messageOwner, t, x, c);
    if s.callback.FreedMessageOf(c) {
      CallbackContextLive(s, c);
    }
    ContextGetsMessage(s.contexts, s.messageOwner, s.callback, c, ctx);
  }

  lemma LockKeeps(s: Machine, s': Machine, t: ThreadId)
    requires Inv(s) && t in s.storers && s.storers[t].HasContext? && s.mutex == Free
    requires s' == s.(storers := s.storers[t := Locked(s.storers[t].id, s.storers[t].ctx)], mutex := HeldBy(t))
    ensures Inv(s')
  {
    var x := Locked(s.storers[t].id, s.storers[t].ctx);
    ThreadMoves(s.storers, s.contextOwner, s.messageOwner, t, x);
    MutexTaken(s.mutex, s.callback, s.storers, t, x);
    ThreadSees(s.storers, s.table, t, x);
    IdKept(s.table, s.stored, s.issued, s.storers, t, x);
  }

  lemma CreateKeeps(s: Machine, s': Machine, t: ThreadId)
    requires Inv(s) && t in s.storers && s.storers[t].Locked?
    requires var Locked(id, c) := s.storers[t];
            s' == s.(storers := s.storers[t := Created(id, c)],
                   empty := if id in s.table then s.empty else s.empty + {id})
    ensures Inv(s')
  {
    var Locked(id, c) := s.storers[t];
    var x := Created(id, c);
    ThreadMoves(s.storers, s.contextOwner, s.messageOwner, t, x);
    CallbackSeesNew(s.callback, s.table, s.empty, s.contexts, c, Context(0, false), id);
    MutexKept(s.mutex, s.callback, s.storers, t, x);
    ThreadSees(s.storers, s.table, t, x);
    IdKept(s.table, s.stored, s.issued, s.storers, t, x);
  }

  lemma InsertKeeps(s: Machine, s': Machine, t: ThreadId)
    requires Inv(s) && t in s.storers && s.storers[t].Created?
    requires var Created(id, c) := s.storers[t];
            s' == s.(storers := s.storers[t := Inserted(id)], table := s.table[id := c], empty := s.empty - {id},
                   contextOwner := s.contextOwner[c := ByEntry(id)], stored := s.stored + {id})
    ensures Inv(s')
  {
    var Created(id, c) := s.storers[t];
    var x := Inserted(id);
    IdEntered(s, t, x, id, c);
    ContextEntered(s, t, x, id, c);
    EntryEntered(s, t, x, id, c);
  }

  lemma IdEntered(s: Machine, t: ThreadId, x: Storer, id: Uint32, c: Ref)
    requires IdsFresh(s.table, s.stored, s.issued, s.storers)
    requires t in s.storers && s.storers[t] == Created(id, c) && x == Inserted(id)
    ensures IdsFresh(s.table[id := c], s.stored + {id}, s.issued, s.storers[t := x]) && id !in s.table
  {
    IdStored(s.table, s.stored, s.issued, s.storers, t, x, c);
  }

  lemma EntryEntered(s: Machine, t: ThreadId, x: Storer, id: Uint32, c: Ref)
    requires Inv(s) && t in s.storers && s.storers[t] == Created(id, c) && id !in s.table && x == Inserted(id)
    ensures ThreadsOwnMessages(s.storers[t := x], s.messageOwner)
    ensures CallbackKnows(s.callback, s.table[id := c], s.empty - {id}, s.contexts)
    ensures MutexHeld(s.mutex, s.callback, s.storers[t := x]) && ThreadsKnow(s.storers[t := x], s.table[id := c])
  {
    InsertedHasNoMessage(s.storers, s.messageOwner, t, x);
    CallbackSeesNew(s.callback, s.table, s.empty, s.contexts, c, Context(0, false), id);
    MutexKept(s.mutex, s.callback, s.storers, t, x);
    ThreadSees(s.storers, s.table[id := c], t, x);
  }

  lemma ContextEntered(s: Machine, t: ThreadId, x: Storer, id: Uint32, c: Ref)
    requires Inv(s) && t in s.storers && s.storers[t] == Created(id, c) && id !in s.table && !x.OwnsContext()
    ensures EntriesOwn(s.table[id := c], s.contextOwner[c := ByEntry(id)])
    ensures ThreadsOwnContexts(s.storers[t := x], s.contextOwner[c := ByEntry(id)])
    ensures RemovalOwns(s.callback, s.contextOwner[c := ByEntry(id)])
    ensures s.contextOwner[c := ByEntry(id)].Keys == s.contexts.Keys
  {
    assert Owns(s.contextOwner, c, ByThread(t));
    SameKeys(s.contexts, s.contextOwner, c, s.contexts[c], ByEntry(id));
    EntryGetsContext(s.table, s.contextOwner, id, c);
    ThreadGivesContext(s.storers, s.contextOwner, t, x, id);
    RemovalUndisturbed(s.callback, s.contextOwner, c, ByEntry(id));
  }

  lemma InsertedHasNoMessage(storers: Threads, owner: MessageOwners, t: ThreadId, x: Storer)
    requires ThreadsOwnMessages(storers, owner) && t in storers && !storers[t].HasMessage? && !x.HasMessage?
    ensures ThreadsOwnMessages(storers[t := x], owner)
  {
  }

  lemma ThreadSees(storers: Threads, table: Table, t: ThreadId, x: Storer)
    requires ThreadsKnow(storers, table) && (x.Inserted? || x.Seen? ==> x.id in table)
    ensures ThreadsKnow(storers[t := x], table) && ThreadsKnow(storers - {t}, table)
  {
  }

  /** The storing thread reads its entry back. */
  lemma CheckKeeps(s: Machine, s': Machine, t: ThreadId, x: Storer)
    requires Inv(s) && t in s.storers && (s.storers[t].Inserted? || s.storers[t].Seen?)
    requires x == Checked || (x.Seen? && x.id in s.table)
    requires s' == s.(storers := s.storers[t := x])
    ensures Inv(s')
  {
    ThreadMoves(s.storers, s.contextOwner, s.messageOwner, t, x);
    MutexKept(s.mutex, s.callback, s.storers, t, x);
    ThreadSees(s.storers, s.table, t, x);
    IdKept(s.table, s.stored, s.issued, s.storers, t, x);
  }

  lemma UnlockKeeps(s: Machine, s': Machine, t: ThreadId)
    requires Inv(s) && t in s.storers && s.storers[t].Checked?
    requires s' == s.(storers := s.storers - {t}, mutex := Free)
    ensures Inv(s')
  {
    ThreadLeaves(s.storers, s.contextOwner, s.messageOwner, t);
    MutexReleased(s.mutex, s.callback, s.storers, t);
    ThreadSees(s.storers, s.table, t, Checked);
    IdKept(s.table, s.stored, s.issued, s.storers, t, Checked);
  }

  /** Steps of the callback thread that change only its own position and the log. */
  lemma QuietKeeps(s: Machine, cb: Callback, log: seq<P.Observation>)
    requires Inv(s) && CallbackKnows(cb, s.table, s.empty, s.contexts)
    requires !s.callback.HoldsMutex() && !s.callback.MessageFreed? && !s.callback.Removing()
    requires !cb.HoldsMutex() && !cb.MessageFreed? && !cb.Removing()
    ensures Inv(s.(callback := cb, log := log))
  {
    CallbackMoves(s, cb);
  }

  lemma FreeMessageKeeps(s: Machine, s': Machine)
    requires Inv(s) && s.callback.RemovalMessage?
    requires var RemovalMessage(id, c, m) := s.callback;
            s' == s.(callback := MessageFreed(id, c), messages := s.messages - {m},
                   messageOwner := s.messageOwner - {m}, freed := s.freed + {m})
    ensures Inv(s')
  {
    var RemovalMessage(id, c, m) := s.callback;
    assert Owns(s.messageOwner, m, OfContext(c));
    FreeMessage(s.contexts, s.messages, s.born, s.freed, s.next, m);
    SameKeys(s.messages, s.messageOwner, m, [], OfContext(c));
    MessageLeavesContext(s.storers, s.messageOwner, m);
    ContextLosesMessage(s.contexts, s.messageOwner, s.callback, MessageFreed(id, c), c);
    NoRemoval(s.callback, MessageFreed(id, c), s.contextOwner, s.mutex, s.storers);
  }

  lemma NoRemoval(cb: Callback, cb': Callback, owner: ContextOwners, mutex: Mutex, storers: Threads)
    requires RemovalOwns(cb, owner) && MutexHeld(mutex, cb, storers)
    requires !cb.Removing() && !cb'.Removing() && !cb.HoldsMutex() && !cb'.HoldsMutex()
    ensures RemovalOwns(cb', owner) && MutexHeld(mutex, cb', storers)
  {
  }

  lemma LockForRemovalKeeps(s: Machine, s': Machine)
    requires Inv(s) && s.callback.MessageFreed? && s.mutex == Free
    requires s' == s.(callback := RemovalLocked(s.callback.id, s.callback.ctx), mutex := HeldByCallback)
    ensures Inv(s')
  {
    CallbackLocks(s, RemovalLocked(s.callback.id, s.callback.ctx), HeldByCallback);
  }

  lemma EraseKeeps(s: Machine, s': Machine)
    requires Inv(s) && s.callback.RemovalLocked?
    requires var RemovalLocked(id, c) := s.callback;
            s' == s.(callback := Erased(c), table := s.table - {id}, empty := s.empty - {id},
                   contextOwner := s.contextOwner[c := ByRemoval])
    ensures Inv(s')
  {
    var RemovalLocked(id, c) := s.callback;
    CallbackContextLive(s, c);
    SameKeys(s.contexts, s.contextOwner, c, s.contexts[c], ByRemoval);
    EntryGivesContext(s.table, s.contextOwner, id, ByRemoval);
    OthersContexts(s.storers, s.contextOwner, c, ByRemoval);
    RemovalStarts(s.callback, s.contextOwner, c);
    ErasedMoves(s, c);
    NoThreadLooks(s.mutex, s.callback, s.storers, s.table - {id});
    IdErased(s.table, s.stored, s.issued, s.storers, id);
  }

  lemma ErasedMoves(s: Machine, c: Ref)
    requires ContextsOwn(s.contexts, s.messageOwner, s.callback) && MutexHeld(s.mutex, s.callback, s.storers)
    requires s.callback.RemovalLocked? && s.callback.ctx == c
    ensures ContextsOwn(s.contexts, s.messageOwner, Erased(c)) && MutexHeld(s.mutex, Erased(c), s.storers)
  {
  }

  lemma NoThreadLooks(mutex: Mutex, cb: Callback, storers: Threads, table: Table)
    requires MutexHeld(mutex, cb, storers) && cb.RemovalLocked?
    ensures ThreadsKnow(storers, table)
  {
  }

  lemma UnlockAfterRemovalKeeps(s: Machine, s': Machine)
    requires Inv(s) && s.callback.Erased?
    requires s' == s.(callback := Unlocked(s.callback.ctx), mutex := Free)
    ensures Inv(s')
  {
    CallbackLocks(s, Unlocked(s.callback.ctx), Free);
  }

  lemma FreeContextKeeps(s: Machine, s': Machine)
    requires Inv(s) && s.callback.Unlocked?
    requires var c := s.callback.ctx;
            s' == s.(callback := Idle, contexts := s.contexts - {c},
                   contextOwner := s.contextOwner - {c}, freed := s.freed + {c})
    ensures Inv(s')
  {
    var c := s.callback.ctx;
    assert Owns(s.contextOwner, c, ByRemoval);
    FreeContext(s.contexts, s.messages, s.born, s.freed, s.next, c);
    SameKeys(s.contexts, s.contextOwner, c, s.contexts[c], ByRemoval);
    OthersEntries(s.table, s.contextOwner, c, ByRemoval);
    OthersContexts(s.storers, s.contextOwner, c, ByRemoval);
    ContextGone(s.contexts, s.messageOwner, s.callback, c);
    RemovalEnds(s.callback, s.contextOwner, c);
    MutexIdle(s.mutex, s.callback, s.storers);
  }

  lemma MutexIdle(mutex: Mutex, cb: Callback, storers: Threads)
    requires MutexHeld(mutex, cb, storers) && !cb.HoldsMutex()
    ensures MutexHeld(mutex, Idle, storers)
  {
  }

  lemma AllocationKeeps(s: Machine, a: Action, s': Machine)
    requires Inv(s) && (a.NewMessage? || a.NewContext?) && StorerStep(s, a) == Next(s')
    ensures Inv(s')
  {
    match a
    case NewMessage(t, id, body, listener) => NewMessageKeeps(s, s', t, id, Frame(id, body), listener);
    case NewContext(t) => NewContextKeeps(s, s', t);
  }

  lemma StoreKeeps(s: Machine, a: Action, s': Machine)
    requires a.Lock? || a.Create? || a.Insert? || a.Check? || a.Read? || a.Unlock?
    requires Inv(s) && StorerStep(s, a) == Next(s')
    ensures Inv(s')
  {
    match a
    case Lock(t) => LockKeeps(s, s', t);
    case Create(t) => CreateKeeps(s, s', t);
    case Insert(t) => InsertKeeps(s, s', t);
    case Check(t) => CheckKeeps(s, s', t, s'.storers[t]);
    case Read(t) => CheckKeeps(s, s', t, Checked);
    case Unlock(t) => UnlockKeeps(s, s', t);
  }

  lemma BeginMoves(s: Machine, a: Action, s': Machine)
    requires (a.BeginReq? || a.BeginResp? || a.BeginEnd?) && BeginStep(s, a) == Next(s')
    ensures s.callback == Idle && s'.callback == if s.HasEntry(Search(a).id) then Search(a) else Idle
  {
  }

  /** The start of a lookup changes only the callback thread's position and the log. */
  lemma BeginIsQuiet(s: Machine, a: Action, s': Machine)
    requires a.BeginReq? || a.BeginResp? || a.BeginEnd?
    requires BeginStep(s, a) == Next(s')
    ensures s' == s.(callback := s'.callback, log := s'.log)
    ensures s.callback == Idle && (s'.callback == Idle || s'.callback.Looking())
    ensures CallbackKnows(s'.callback, s.table, s.empty, s.contexts)
  {
    BeginMoves(s, a, s');
    BeginChangesNoMore(s, a, s');
  }

  lemma BeginChangesNoMore(s: Machine, a: Action, s': Machine)
    requires (a.BeginReq? || a.BeginResp? || a.BeginEnd?) && BeginStep(s, a) == Next(s')
    ensures s' == s.(callback := s'.callback, log := s'.log)
    ensures s'.callback.RespSeen? ==>
              Complete(s'.callback.inbuffer) || Unheard(s.table, s.contexts, s'.callback.id)
  {
  }

  lemma FoundKnows(cb: Callback, table: Table, empty: set<Uint32>, contexts: Contexts)
    requires CallbackKnows(cb, table, empty, contexts) && (cb.Looking() || cb.RemovalSeen?) && cb.id in table
    ensures CallbackKnows(Found(cb, table[cb.id]), table, empty, contexts)
    ensures !Found(cb, table[cb.id]).MessageFreed? && !Found(cb, table[cb.id]).HoldsMutex()
  {
  }

  /** So do its end and every other read. */
  lemma LookupIsQuiet(s: Machine, s': Machine)
    requires (s.callback.Looking() || s.callback.RemovalSeen?) && LookupStep(s) == Next(s')
    requires CallbackKnows(s.callback, s.table, s.empty, s.contexts)
    ensures s' == s.(callback := s'.callback, log := s'.log)
    ensures s'.callback == Idle || s'.callback.RefersToEntry()
    ensures !s'.callback.MessageFreed? && !s'.callback.HoldsMutex()
    ensures CallbackKnows(s'.callback, s.table, s.empty, s.contexts)
  {
    if s.callback.id in s.table {
      FoundKnows(s.callback, s.table, s.empty, s.contexts);
    }
  }

  lemma EntryReadIsQuiet(s: Machine, s': Machine)
    requires s.callback.ReqFound? || s.callback.RespFound? || s.callback.EndFound? || s.callback.RemovalFound?
    requires ProceedStep(s) == Next(s') && CallbackKnows(s.callback, s.table, s.empty, s.contexts)
    ensures s' == s.(callback := s'.callback, log := s'.log)
    ensures !s'.callback.MessageFreed? && !s'.callback.HoldsMutex() && !s'.callback.Removing()
    ensures CallbackKnows(s'.callback, s.table, s.empty, s.contexts)
  {
  }

  lemma ReadIsQuiet(s: Machine, s': Machine)
    requires !s.callback.Changing() && !s.callback.Looking() && !s.callback.RemovalSeen?
    requires ProceedStep(s) == Next(s') && CallbackKnows(s.callback, s.table, s.empty, s.contexts)
    ensures s' == s.(callback := s'.callback, log := s'.log)
    ensures !s'.callback.MessageFreed? && !s'.callback.HoldsMutex() && !s'.callback.Removing()
    ensures CallbackKnows(s'.callback, s.table, s.empty, s.contexts)
  {
    if s.callback.RefersToEntry() {
      EntryReadIsQuiet(s, s');
    }
  }

  lemma FreeStepIs(s: Machine, s': Machine)
    requires ProceedStep(s) == Next(s') && (s.callback.RemovalMessage? || s.callback.Unlocked?)
    ensures s.callback.Unlocked? ==>
              s' == s.(callback := Idle, contexts := s.contexts - {s.callback.ctx},
                       contextOwner := s.contextOwner - {s.callback.ctx}, freed := s.freed + {s.callback.ctx})
    ensures s.callback.RemovalMessage? ==>
              s' == s.(callback := MessageFreed(s.callback.id, s.callback.ctx),
                       messages := s.messages - {s.callback.msg},
                       messageOwner := s.messageOwner - {s.callback.msg}, freed := s.freed + {s.callback.msg})
  {
  }

  lemma FreeStepKeeps(s: Machine, s': Machine)
    requires Inv(s) && ProceedStep(s) == Next(s') && (s.callback.RemovalMessage? || s.callback.Unlocked?)
    ensures Inv(s')
  {
    FreeStepIs(s, s');
    if s.callback.Unlocked? {
      FreeContextKeeps(s, s');
    } else {
      FreeMessageKeeps(s, s');
    }
  }

  lemma MutexStepKeeps(s: Machine, s': Machine)
    requires Inv(s) && ProceedStep(s) == Next(s')
    requires s.callback.MessageFreed? || s.callback.HoldsMutex()
    ensures Inv(s')
  {
    if s.callback.MessageFreed? {
      LockForRemovalKeeps(s, s');
    } else if s.callback.RemovalLocked? {
      EraseKeeps(s, s');
    } else {
      UnlockAfterRemovalKeeps(s, s');
    }
  }

  lemma StepKeepsInv(s: Machine, a: Action, s': Machine)
    requires Inv(s) && Step(s, a) == Next(s')
    ensures Inv(s')
  {
    if !a.Proceed? && !a.BeginReq? && !a.BeginResp? && !a.BeginEnd? {
      if a.NewMessage? || a.NewContext? {
        AllocationKeeps(s, a, s');
      } else {
        StoreKeeps(s, a, s');
      }
    } else if !a.Proceed? {
      BeginIsQuiet(s, a, s');
      QuietKeeps(s, s'.callback, s'.log);
    } else {
      ProceedKeeps(s, s');
    }
  }

  lemma ProceedKeeps(s: Machine, s': Machine)
    requires Inv(s) && ProceedStep(s) == Next(s')
    ensures Inv(s')
  {
    if s.callback.Looking() || s.callback.RemovalSeen? {
      LookupIsQuiet(s, s');
      QuietKeeps(s, s'.callback, s'.log);
    } else if !s.callback.Changing() {
      ReadIsQuiet(s, s');
      QuietKeeps(s, s'.callback, s'.log);
    } else if s.callback.RemovalMessage? || s.callback.Unlocked? {
      FreeStepKeeps(s, s');
    } else {
      MutexStepKeeps(s, s');
    }
  }

  // --------------------------------------------------- the runs look atomic

  /** The task is over for the outside although its entry is still there. */
  ghost predicate Over(cb: Callback, id: Uint32) {
    cb.Ending() && cb.id == id
  }

  ghost function TaskAt(contexts: Contexts, messages: Messages, c: Ref): P.Task {
    if c in contexts && contexts[c].msg in messages then P.Task(Some(messages[contexts[c].msg]), contexts[c].listener)
    else P.Task(None, false)
  }

  /** The tasks that the outside can tell to be in the table. */
  ghost function View(table: Table, contexts: Contexts, messages: Messages, cb: Callback): map<Uint32, P.Task> {
    map id | id in table && !Over(cb, id) :: TaskAt(contexts, messages, table[id])
  }

  /** The one-at-a-time state that a machine state stands for. */
  ghost function Abs(s: Machine): P.State {
    P.State(View(s.table, s.contexts, s.messages, s.callback), s.stored, s.log)
  }

  ghost function Call(cb: Callback): P.Event
    requires cb.Looking()
  {
    match cb
    case ReqSeen(id) => P.Req2Buf(id)
    case RespSeen(id, inbuffer) => P.Buf2Resp(id, inbuffer)
    case EndSeen(id, t, code) => P.OnTaskEnd(id, t, code)
  }

  /** The callback that takes effect with a step, if one does: a task is stored when
      its entry gets its context, a request is built when its message is read, a
      response when the listener is called, a task ends when the listener is told, and
      a callback fails when its lookup does. */
  ghost function Effect(s: Machine, a: Action): Option<P.Event> {
    match a
    case NewMessage(_, _, _, _) => None
    case NewContext(_) => None
    case Lock(_) => None
    case Create(_) => None
    case Insert(t) =>
      if t in s.storers && s.storers[t].Created?
      then Some(P.Store(s.storers[t].id, TaskAt(s.contexts, s.messages, s.storers[t].ctx)))
      else None
    case Check(_) => None
    case Read(_) => None
    case Unlock(_) => None
    case BeginReq(id) => if s.HasEntry(id) then None else Some(Call(Search(a)))
    case BeginResp(id, _) => if s.HasEntry(id) then None else Some(Call(Search(a)))
    case BeginEnd(id, _, _) => if s.HasEntry(id) then None else Some(Call(Search(a)))
    case Proceed =>
      if s.callback.Looking() then if s.callback.id in s.table then None else Some(Call(s.callback))
      else match s.callback
        case ReqMessage(id, _) => Some(P.Req2Buf(id))
        case RespFound(id, _, inbuffer) => Some(P.Buf2Resp(id, inbuffer))
        case EndFound(id, _, t, c) => Some(P.OnTaskEnd(id, t, c))
        case _ => None
  }

  /** A step either changes nothing for the outside or does what one allowed callback
      does. */
  ghost predicate Simulates(s: Machine, a: Action, s': Machine) {
    match Effect(s, a)
    case None => Abs(s') == Abs(s)
    case Some(e) => P.Allowed(Abs(s), e) && Abs(s') == P.Apply(Abs(s), e)
  }

  /** Every task in view has its context and its message. */
  ghost predicate InView(table: Table, contexts: Contexts, messages: Messages, cb: Callback) {
    forall id :: id in table && !Over(cb, id) ==> table[id] in contexts && contexts[table[id]].msg in messages
  }

  lemma ViewIsLive(s: Machine)
    requires Inv(s)
    ensures InView(s.table, s.contexts, s.messages, s.callback)
    ensures s.callback.Ending() || s.callback.RefersToEntry() || s.callback.ReqMessage? ==> s.callback.id in s.table
  {
    forall id | id in s.table && !Over(s.callback, id)
      ensures s.table[id] in s.contexts && s.contexts[s.table[id]].msg in s.messages
    {
      EntryIsLive(s, id);
      assert Owns(s.contextOwner, s.table[id], ByEntry(id));
      if s.callback.FreedMessageOf(s.table[id]) {
        CallbackContextLive(s, s.table[id]);
      }
    }
  }

  lemma ViewOfNewObject(table: Table, contexts: Contexts, messages: Messages, cb: Callback,
                        r: Ref, x: Context, bytes: seq<Byte>)
    requires InView(table, contexts, messages, cb)
    ensures r !in contexts ==> View(table, contexts[r := x], messages, cb) == View(table, contexts, messages, cb)
    ensures r !in messages ==> View(table, contexts, messages[r := bytes], cb) == View(table, contexts, messages, cb)
  {
  }

  lemma ViewWithoutContext(s: Machine, c: Ref)
    requires EntriesOwn(s.table, s.contextOwner) && RemovalOwns(s.callback, s.contextOwner)
    requires Owns(s.contextOwner, c, ByRemoval)
    ensures View(s.table, s.contexts - {c}, s.messages, Idle) == View(s.table, s.contexts, s.messages, s.callback)
  {
    forall id | id in s.table
      ensures TaskAt(s.contexts - {c}, s.messages, s.table[id]) == TaskAt(s.contexts, s.messages, s.table[id])
    {
      assert Owns(s.contextOwner, s.table[id], ByEntry(id));
    }
  }

  lemma ViewWithoutMessage(s: Machine, id: Uint32, c: Ref, m: Ref)
    requires EntriesOwn(s.table, s.contextOwner) && AllOwned(s.contexts, s.messages, s.contextOwner, s.messageOwner)
    requires ContextsOwn(s.contexts, s.messageOwner, s.callback)
    requires CallbackKnows(s.callback, s.table, s.empty, s.contexts) && s.callback == RemovalMessage(id, c, m)
    ensures View(s.table, s.contexts, s.messages - {m}, MessageFreed(id, c))
         == View(s.table, s.contexts, s.messages, s.callback)
  {
    assert Owns(s.messageOwner, m, OfContext(c));
    forall i | i in s.table && i != id
      ensures TaskAt(s.contexts, s.messages - {m}, s.table[i]) == TaskAt(s.contexts, s.messages, s.table[i])
    {
      assert Owns(s.contextOwner, s.table[i], ByEntry(i)) && Owns(s.contextOwner, s.table[id], ByEntry(id));
      assert Owns(s.messageOwner, s.contexts[s.table[i]].msg, OfContext(s.table[i]));
    }
  }

  lemma ViewOfInsert(table: Table, contexts: Contexts, messages: Messages, cb: Callback, id: Uint32, c: Ref)
    requires id !in table && !Over(cb, id)
    ensures View(table[id := c], contexts, messages, cb)
         == View(table, contexts, messages, cb)[id := TaskAt(contexts, messages, c)]
  {
  }

  lemma ViewOfErase(table: Table, contexts: Contexts, messages: Messages, cb: Callback, c: Ref)
    requires cb.RemovalLocked?
    ensures View(table - {cb.id}, contexts, messages, Erased(c)) == View(table, contexts, messages, cb)
  {
  }

  lemma ViewOfEnd(table: Table, contexts: Contexts, messages: Messages, cb: Callback, id: Uint32)
    requires !cb.Ending()
    ensures View(table, contexts, messages, Notified(id)) == View(table, contexts, messages, cb) - {id}
  {
  }

  lemma ViewSame(table: Table, contexts: Contexts, messages: Messages, cb: Callback, cb': Callback)
    requires cb.Ending() == cb'.Ending() && (cb.Ending() ==> cb.id == cb'.id)
    ensures View(table, contexts, messages, cb') == View(table, contexts, messages, cb)
  {
  }

  lemma QuietView(s: Machine, s': Machine)
    requires s' == s.(callback := s'.callback, log := s'.log)
    requires s.callback.Ending() == s'.callback.Ending() && (s.callback.Ending() ==> s.callback.id == s'.callback.id)
    ensures Abs(s') == Abs(s).(log := s'.log)
  {
    ViewSame(s.table, s.contexts, s.messages, s.callback, s'.callback);
  }

  lemma InsertSimulates(s: Machine, t: ThreadId, s': Machine)
    requires StorerStep(s, Insert(t)) == Next(s') && s.storers[t].id !in s.stored + s.table.Keys
    requires !Over(s.callback, s.storers[t].id)
    ensures Simulates(s, Insert(t), s')
  {
    ViewOfInsert(s.table, s.contexts, s.messages, s.callback, s.storers[t].id, s.storers[t].ctx);
  }

  lemma PendingIsNew(s: Machine, t: ThreadId)
    requires Inv(s) && t in s.storers && s.storers[t].Pending()
    ensures s.storers[t].id !in s.stored + s.table.Keys && !Over(s.callback, s.storers[t].id)
  {
    IdStored(s.table, s.stored, s.issued, s.storers, t, Checked, 0);
  }

  lemma AllocationSimulates(s: Machine, a: Action, s': Machine)
    requires (a.NewMessage? || a.NewContext?) && StorerStep(s, a) == Next(s')
    requires s.next !in s.contexts && s.next !in s.messages && InView(s.table, s.contexts, s.messages, s.callback)
    ensures Simulates(s, a, s')
  {
    if a.NewMessage? {
      ViewOfNewObject(s.table, s.contexts, s.messages, s.callback, s.next, Context(0, false), Frame(a.id, a.body));
    } else {
      ViewOfNewObject(s.table, s.contexts, s.messages, s.callback, s.next, s'.contexts[s.next], []);
    }
  }

  lemma LockingSimulates(s: Machine, a: Action, s': Machine)
    requires (a.Lock? || a.Create? || a.Check? || a.Read? || a.Unlock?) && StorerStep(s, a) == Next(s')
    ensures Simulates(s, a, s')
  {
  }

  lemma StorerSimulates(s: Machine, a: Action, s': Machine)
    requires Inv(s) && !a.BeginReq? && !a.BeginResp? && !a.BeginEnd? && !a.Proceed? && StorerStep(s, a) == Next(s')
    ensures Simulates(s, a, s')
  {
    ViewIsLive(s);
    if a.Insert? {
      PendingIsNew(s, a.tid);
      InsertSimulates(s, a.tid, s');
    } else if a.NewMessage? || a.NewContext? {
      AllocateMessage(s.contexts, s.messages, s.born, s.freed, s.next, []);
      AllocationSimulates(s, a, s');
    } else {
      LockingSimulates(s, a, s');
    }
  }

  /** A callback about a task that is not there only fails. */
  lemma FailedCall(s: P.State, cb: Callback)
    requires cb.Looking()
    ensures cb.id !in s.tasks ==>
              P.Allowed(s, Call(cb)) && P.Apply(s, Call(cb)) == s.(log := s.log + Failure(cb))
  {
  }

  lemma BeginSimulates(s: Machine, a: Action, s': Machine)
    requires (a.BeginReq? || a.BeginResp? || a.BeginEnd?) && BeginStep(s, a) == Next(s')
    ensures Simulates(s, a, s')
  {
    BeginIsQuiet(s, a, s');
    QuietView(s, s');
    if !s.HasEntry(Search(a).id) {
      FailedCall(Abs(s), Search(a));
    }
  }

  lemma LookupSimulates(s: Machine, s': Machine)
    requires (s.callback.Looking() || s.callback.RemovalSeen?) && LookupStep(s) == Next(s')
    requires CallbackKnows(s.callback, s.table, s.empty, s.contexts)
    ensures Simulates(s, Proceed, s')
  {
    QuietView(s, s');
    if s.callback.Looking() {
      FailedCall(Abs(s), s.callback);
    }
  }

  lemma RequestSimulates(s: Machine, s': Machine)
    requires ProceedStep(s) == Next(s') && s.callback.ReqMessage? && s.callback.id in s.table
    requires InView(s.table, s.contexts, s.messages, s.callback)
    requires CallbackKnows(s.callback, s.table, s.empty, s.contexts)
    ensures Simulates(s, Proceed, s')
  {
    ViewSame(s.table, s.contexts, s.messages, s.callback, s'.callback);
  }

  lemma ResponseSimulates(s: Machine, s': Machine)
    requires ProceedStep(s) == Next(s') && s.callback.RespFound? && s.callback.id in s.table
    requires InView(s.table, s.contexts, s.messages, s.callback)
    requires CallbackKnows(s.callback, s.table, s.empty, s.contexts)
    ensures Simulates(s, Proceed, s')
  {
    ViewSame(s.table, s.contexts, s.messages, s.callback, s'.callback);
  }

  lemma EndSimulates(s: Machine, s': Machine)
    requires ProceedStep(s) == Next(s') && s.callback.EndFound? && s.callback.id in s.table
    requires InView(s.table, s.contexts, s.messages, s.callback)
    requires CallbackKnows(s.callback, s.table, s.empty, s.contexts)
    ensures Simulates(s, Proceed, s')
  {
    ViewOfEnd(s.table, s.contexts, s.messages, s.callback, s.callback.id);
  }

  lemma FreeSimulates(s: Machine, s': Machine, c: Ref, m: Ref)
    requires ProceedStep(s) == Next(s')
    requires s.callback == Unlocked(c) || (s.callback.RemovalMessage? && s.callback.ctx == c && s.callback.msg == m)
    requires s.callback.Unlocked? ==>
               View(s.table, s.contexts - {c}, s.messages, Idle) == View(s.table, s.contexts, s.messages, s.callback)
    requires s.callback.RemovalMessage? ==>
               View(s.table, s.contexts, s.messages - {m}, MessageFreed(s.callback.id, c)) ==
               View(s.table, s.contexts, s.messages, s.callback)
    ensures Simulates(s, Proceed, s')
  {
  }

  lemma RemovalSimulates(s: Machine, s': Machine)
    requires ProceedStep(s) == Next(s') && CallbackKnows(s.callback, s.table, s.empty, s.contexts)
    requires !s.callback.Looking() && !s.callback.RemovalSeen?
    requires !s.callback.ReqMessage? && !s.callback.RespFound? && !s.callback.EndFound?
    requires !s.callback.RemovalMessage? && !s.callback.Unlocked?
    ensures Simulates(s, Proceed, s')
  {
    if s.callback.RemovalLocked? {
      ViewOfErase(s.table, s.contexts, s.messages, s.callback, s.callback.ctx);
    } else {
      ViewSame(s.table, s.contexts, s.messages, s.callback, s'.callback);
    }
  }

  lemma StepSimulates(s: Machine, a: Action, s': Machine)
    requires Inv(s) && Step(s, a) == Next(s')
    ensures Simulates(s, a, s')
  {
    if !a.Proceed? && !a.BeginReq? && !a.BeginResp? && !a.BeginEnd? {
      StorerSimulates(s, a, s');
    } else if !a.Proceed? {
      BeginSimulates(s, a, s');
    } else {
      ProceedSimulates(s, s');
    }
  }

  lemma ProceedSimulates(s: Machine, s': Machine)
    requires Inv(s) && ProceedStep(s) == Next(s')
    ensures Simulates(s, Proceed, s')
  {
    ViewIsLive(s);
    match s.callback
    case ReqSeen(_) => LookupSimulates(s, s');
    case RespSeen(_, _) => LookupSimulates(s, s');
    case EndSeen(_, _, _) => LookupSimulates(s, s');
    case RemovalSeen(_) => LookupSimulates(s, s');
    case ReqMessage(_, _) => RequestSimulates(s, s');
    case RespFound(_, _, _) => ResponseSimulates(s, s');
    case EndFound(_, _, _, _) => EndSimulates(s, s');
    case RemovalMessage(id, c, m) =>
      ViewWithoutMessage(s, id, c, m);
      FreeSimulates(s, s', c, m);
    case Unlocked(c) =>
      ViewWithoutContext(s, c);
      FreeSimulates(s, s', c, 0);
    case _ => RemovalSimulates(s, s');
  }

  // --------------------------------------------------------------------- runs

  ghost predicate IsRun(s: Machine, actions: seq<Action>, s': Machine)
    decreases |actions|
  {
    if actions == [] then s' == s
    else Step(s, actions[0]).Next? && IsRun(Step(s, actions[0]).machine, actions[1..], s')
  }

  lemma {:induction false} RunKeepsInv(s: Machine, actions: seq<Action>, s': Machine)
    requires Inv(s) && IsRun(s, actions, s')
    ensures Inv(s')
    decreases |actions|
  {
    if actions != [] {
      var next := Step(s, actions[0]).machine;
      StepKeepsInv(s, actions[0], next);
      RunKeepsInv(next, actions[1..], s');
    }
  }

  /** Memory safety of every interleaving of any number of storing threads and the
      callback thread: no step reads or frees an object that is not live, even between
      the deletion of a message and the erasure of its entry, and no lookup outside the
      mutex finds its entry gone on the second access and adds an empty one. */
  lemma InterleavingsAreSafe(actions: seq<Action>, s: Machine, a: Action)
    requires IsRun(INITIAL, actions, s)
    ensures !Step(s, a).Crash?
  {
    RunKeepsInv(INITIAL, actions, s);
    NoCrash(s, a);
  }

  /** Who can hold a live context or message. */
  ghost predicate ContextHeld(s: Machine, c: Ref) {
    || (exists t :: t in s.storers && s.storers[t].OwnsContext() && s.storers[t].ctx == c)
    || (exists id :: id in s.table && s.table[id] == c)
    || (s.callback.Removing() && s.callback.ctx == c)
  }

  ghost predicate MessageHeld(s: Machine, m: Ref) {
    || (exists t :: t in s.storers && s.storers[t].HasMessage? && s.storers[t].msg == m)
    || (exists c :: c in s.contexts && !s.callback.FreedMessageOf(c) && s.contexts[c].msg == m)
  }

  lemma ContextsHeld(s: Machine, c: Ref)
    requires Inv(s)
    ensures c in s.contexts <==> ContextHeld(s, c)
  {
    if c in s.contexts {
      match s.contextOwner[c]
      case ByThread(t) => assert s.storers[t].ctx == c;
      case ByEntry(id) => assert s.table[id] == c;
      case ByRemoval =>
    }
    forall t | t in s.storers && s.storers[t].OwnsContext()
      ensures s.storers[t].ctx in s.contexts
    {
      assert Owns(s.contextOwner, s.storers[t].ctx, ByThread(t));
    }
    forall id | id in s.table
      ensures s.table[id] in s.contexts
    {
      assert Owns(s.contextOwner, s.table[id], ByEntry(id));
    }
  }

  lemma MessagesHeld(s: Machine, m: Ref)
    requires Inv(s)
    ensures m in s.messages <==> MessageHeld(s, m)
  {
    if m in s.messages {
      match s.messageOwner[m]
      case OfThread(t) => assert s.storers[t].msg == m;
      case OfContext(c) => assert s.contexts[c].msg == m;
    }
    forall t | t in s.storers && s.storers[t].HasMessage?
      ensures s.storers[t].msg in s.messages
    {
      assert Owns(s.messageOwner, s.storers[t].msg, OfThread(t));
    }
    forall c | c in s.contexts && !s.callback.FreedMessageOf(c)
      ensures s.contexts[c].msg in s.messages
    {
      assert Owns(s.messageOwner, s.contexts[c].msg, OfContext(c));
    }
  }

  /** Conservation in every reachable state: what was allocated is live or freed, not
      both; the live contexts are exactly those a storing thread holds, an entry names
      or the callback thread is removing, and no two entries name the same one; the
      live messages are exactly those of a thread or of a context that still has its
      own. So once every thread is idle and every task has ended, all is freed. */
  lemma ObjectsAreAccountedFor(actions: seq<Action>, s: Machine)
    requires IsRun(INITIAL, actions, s)
    ensures s.born == s.contexts.Keys + s.messages.Keys + s.freed
    ensures s.freed !! s.contexts.Keys && s.freed !! s.messages.Keys
    ensures forall c :: c in s.contexts <==> ContextHeld(s, c)
    ensures forall m :: m in s.messages <==> MessageHeld(s, m)
    ensures forall id, id' :: id in s.table && id' in s.table && s.table[id] == s.table[id'] ==> id == id'
    ensures s.storers == map[] && s.callback == Idle && s.table == map[] ==> s.born == s.freed
  {
    RunKeepsInv(INITIAL, actions, s);
    forall c ensures c in s.contexts <==> ContextHeld(s, c) { ContextsHeld(s, c); }
    forall m ensures m in s.messages <==> MessageHeld(s, m) { MessagesHeld(s, m); }
    forall id, id' | id in s.table && id' in s.table && s.table[id] == s.table[id']
      ensures id == id'
    {
      assert Owns(s.contextOwner, s.table[id], ByEntry(id)) && Owns(s.contextOwner, s.table[id'], ByEntry(id'));
    }
    if s.storers == map[] && s.callback == Idle && s.table == map[] {
      AllFreed(s);
    }
  }

  lemma AllFreed(s: Machine)
    requires Inv(s) && s.storers == map[] && s.callback == Idle && s.table == map[]
    ensures s.born == s.freed
  {
    forall c ensures c !in s.contexts { ContextsHeld(s, c); }
    forall m ensures m !in s.messages { MessagesHeld(s, m); }
  }

  /** The address that a step gives to delete, if it is one of the two deletions. */
  function Deleted(s: Machine, a: Action): Option<Ref> {
    if a.Proceed? && s.callback.RemovalMessage? then Some(s.callback.msg)
    else if a.Proceed? && s.callback.Unlocked? then Some(s.callback.ctx)
    else None
  }

  /** All the addresses that are deleted in a run, in order. */
  ghost function Deletions(s: Machine, actions: seq<Action>): seq<Ref>
    decreases |actions|
  {
    if actions == [] || !Step(s, actions[0]).Next? then []
    else
      var rest := Deletions(Step(s, actions[0]).machine, actions[1..]);
      match Deleted(s, actions[0])
      case None => rest
      case Some(r) => [r] + rest
  }

  lemma DeletionFrees(s: Machine, a: Action, s': Machine)
    requires Inv(s) && Step(s, a) == Next(s')
    ensures match Deleted(s, a)
            case None => s'.freed == s.freed
            case Some(r) => s'.freed == s.freed + {r} && r !in s.freed
  {
    if a.BeginReq? || a.BeginResp? || a.BeginEnd? {
      BeginIsQuiet(s, a, s');
    } else if a.Proceed? {
      ProceedFrees(s, s');
    } else {
      StorerFreesNothing(s, a, s');
    }
  }

  lemma StorerFreesNothing(s: Machine, a: Action, s': Machine)
    requires !a.BeginReq? && !a.BeginResp? && !a.BeginEnd? && !a.Proceed? && StorerStep(s, a) == Next(s')
    ensures s'.freed == s.freed
  {
  }

  lemma ProceedFrees(s: Machine, s': Machine)
    requires Accounted(s.contexts, s.messages, s.born, s.freed, s.next)
    requires CallbackKnows(s.callback, s.table, s.empty, s.contexts) && ProceedStep(s) == Next(s')
    ensures match Deleted(s, Proceed)
            case None => s'.freed == s.freed
            case Some(r) => s'.freed == s.freed + {r} && r !in s.freed
  {
    if s.callback.Looking() || s.callback.RemovalSeen? {
      LookupIsQuiet(s, s');
    } else if !s.callback.Changing() {
      ReadIsQuiet(s, s');
    } else if s.callback.RemovalMessage? || s.callback.Unlocked? {
      FreeStepIs(s, s');
    } else {
      LockingFreesNothing(s, s');
    }
  }

  lemma LockingFreesNothing(s: Machine, s': Machine)
    requires (s.callback.MessageFreed? || s.callback.HoldsMutex()) && ProceedStep(s) == Next(s')
    ensures s'.freed == s.freed
  {
  }

  ghost predicate NoneTwice(rs: seq<Ref>) {
    forall i, j :: 0 <= i < j < |rs| ==> rs[i] != rs[j]
  }

  lemma {:induction false} DeletionsFree(s: Machine, actions: seq<Action>, s': Machine)
    requires Inv(s) && IsRun(s, actions, s')
    ensures NoneTwice(Deletions(s, actions))
    ensures forall r :: r in s'.freed <==> r in s.freed || r in Deletions(s, actions)
    ensures forall r :: r in Deletions(s, actions) ==> r !in s.freed
    decreases |actions|
  {
    if actions != [] {
      var next := Step(s, actions[0]).machine;
      StepKeepsInv(s, actions[0], next);
      DeletionFrees(s, actions[0], next);
      DeletionsFree(next, actions[1..], s');
    }
  }

  /** In no run is an address deleted twice, and what is deleted is exactly what has
      been allocated and is no longer live. */
  lemma FreedOnce(actions: seq<Action>, s: Machine)
    requires IsRun(INITIAL, actions, s)
    ensures NoneTwice(Deletions(INITIAL, actions))
    ensures forall r :: r in Deletions(INITIAL, actions) <==> r in s.born && r !in s.contexts && r !in s.messages
  {
    RunKeepsInv(INITIAL, actions, s);
    DeletionsFree(INITIAL, actions, s);
  }

  /** The step that some busy thread can take: the holder of the mutex, or, when it is
      free, any of them. */
  ghost function BusyStep(s: Machine): Action
    requires s.storers != map[] || s.callback != Idle
  {
    if s.mutex.HeldBy? && s.mutex.tid in s.storers then NextOf(s, s.mutex.tid)
    else if s.callback != Idle then Proceed
    else
      assert exists t :: t in s.storers;
      var t :| t in s.storers;
      NextOf(s, t)
  }

  ghost function NextOf(s: Machine, t: ThreadId): Action
    requires t in s.storers
  {
    match s.storers[t]
    case HasMessage(_, _, _) => NewContext(t)
    case HasContext(_, _) => Lock(t)
    case Locked(_, _) => Create(t)
    case Created(_, _) => Insert(t)
    case Inserted(_) => Check(t)
    case Seen(_) => Read(t)
    case Checked => Unlock(t)
  }

  /** No deadlock: in every reachable state in which a thread is busy, a busy thread
      can take a step. */
  lemma NoDeadlock(actions: seq<Action>, s: Machine)
    requires IsRun(INITIAL, actions, s)
    requires s.storers != map[] || s.callback != Idle
    ensures Step(s, BusyStep(s)).Next?
  {
    RunKeepsInv(INITIAL, actions, s);
    BusyCanStep(s);
  }

  lemma ThreadCanStep(s: Machine, t: ThreadId)
    requires t in s.storers && (s.storers[t].HasContext? ==> s.mutex == Free) && !Step(s, NextOf(s, t)).Crash?
    ensures Step(s, NextOf(s, t)).Next?
  {
  }

  lemma CallbackCanStep(s: Machine)
    requires s.callback != Idle && (s.callback.MessageFreed? ==> s.mutex == Free) && !ProceedStep(s).Crash?
    ensures Step(s, Proceed).Next?
  {
  }

  lemma BusyCanStep(s: Machine)
    requires Inv(s) && (s.storers != map[] || s.callback != Idle)
    ensures Step(s, BusyStep(s)).Next?
  {
    if s.mutex.HeldBy? {
      NoCrash(s, NextOf(s, s.mutex.tid));
      ThreadCanStep(s, s.mutex.tid);
    } else if s.callback != Idle {
      NoCrash(s, Proceed);
      CallbackCanStep(s);
    } else {
      assert exists t :: t in s.storers && BusyStep(s) == NextOf(s, t);
      var t :| t in s.storers && BusyStep(s) == NextOf(s, t);
      NoCrash(s, NextOf(s, t));
      ThreadCanStep(s, t);
    }
  }

  // Busy threads finish.

  /** The steps that the storing threads have to come, at most. */
  ghost function StorersWork(storers: Threads): nat
    decreases |storers|
  {
    if storers == map[] then 0
    else
      assert exists t :: t in storers;
      var t :| t in storers;
      storers[t].Rank() + StorersWork(storers - {t})
  }

  ghost function Work(s: Machine): nat {
    StorersWork(s.storers) + s.callback.Rank()
  }

  lemma {:induction false} WorkOf(storers: Threads, t: ThreadId)
    requires t in storers
    ensures StorersWork(storers) == storers[t].Rank() + StorersWork(storers - {t})
    decreases |storers|
  {
    assert exists u :: u in storers;
    var u :| u in storers && StorersWork(storers) == storers[u].Rank() + StorersWork(storers - {u});
    if u != t {
      WorkOf(storers - {u}, t);
      WorkOf(storers - {t}, u);
      assert storers - {u} - {t} == storers - {t} - {u};
    }
  }

  lemma WorkSet(storers: Threads, t: ThreadId, x: Storer)
    ensures StorersWork(storers[t := x]) == x.Rank() + StorersWork(storers - {t})
    ensures t !in storers ==> storers - {t} == storers
  {
    WorkOf(storers[t := x], t);
    assert storers[t := x] - {t} == storers - {t};
  }

  predicate Starts(a: Action) {
    a.NewMessage? || a.BeginReq? || a.BeginResp? || a.BeginEnd?
  }

  /** The steps that an operation takes at most, from its first one on. */
  function Allowance(a: Action): nat {
    if a.NewMessage? then 8 else if Starts(a) then 11 else 0
  }

  ghost function Allowances(actions: seq<Action>): nat {
    if actions == [] then 0 else Allowance(actions[0]) + Allowances(actions[1..])
  }

  lemma StorerStepWorks(s: Machine, a: Action, s': Machine)
    requires !a.BeginReq? && !a.BeginResp? && !a.BeginEnd? && !a.Proceed? && StorerStep(s, a) == Next(s')
    ensures s'.callback == s.callback
    ensures StorersWork(s'.storers) < StorersWork(s.storers) + Allowance(a)
  {
    if a.tid in s.storers {
      WorkOf(s.storers, a.tid);
    }
    if a.tid in s'.storers {
      WorkSet(s.storers, a.tid, s'.storers[a.tid]);
    }
  }

  lemma LookupWorks(s: Machine, s': Machine)
    requires (s.callback.Looking() || s.callback.RemovalSeen?) && LookupStep(s) == Next(s')
    ensures s'.storers == s.storers && s'.callback.Rank() < s.callback.Rank()
  {
  }

  lemma ReadWorks(s: Machine, s': Machine)
    requires s.callback.ReqFound? || s.callback.RespFound? || s.callback.EndFound? || s.callback.RemovalFound?
    requires ProceedStep(s) == Next(s')
    ensures s'.storers == s.storers && s'.callback.Rank() < s.callback.Rank()
  {
  }

  lemma ProceedWorks(s: Machine, s': Machine)
    requires ProceedStep(s) == Next(s')
    ensures s'.storers == s.storers && s'.callback.Rank() < s.callback.Rank()
  {
    if s.callback.Looking() || s.callback.RemovalSeen? {
      LookupWorks(s, s');
    } else if s.callback.ReqFound? || s.callback.RespFound? || s.callback.EndFound? || s.callback.RemovalFound? {
      ReadWorks(s, s');
    } else if s.callback.RemovalMessage? || s.callback.Unlocked? {
      FreeStepIs(s, s');
    } else if s.callback.MessageFreed? || s.callback.HoldsMutex() {
      LockingWorks(s, s');
    }
  }

  lemma LockingWorks(s: Machine, s': Machine)
    requires s.callback.MessageFreed? || s.callback.HoldsMutex()
    requires ProceedStep(s) == Next(s')
    ensures s'.storers == s.storers && s'.callback.Rank() < s.callback.Rank()
  {
  }

  lemma StepWorks(s: Machine, a: Action, s': Machine)
    requires Step(s, a) == Next(s')
    ensures Work(s') < Work(s) + Allowance(a)
  {
    if a.Proceed? {
      ProceedWorks(s, s');
    } else if a.BeginReq? || a.BeginResp? || a.BeginEnd? {
      BeginIsQuiet(s, a, s');
    } else {
      StorerStepWorks(s, a, s');
    }
  }

  /** A run is at most as long as the operations begun in it allow. */
  lemma {:induction false} RunsAreBounded(s: Machine, actions: seq<Action>, s': Machine)
    requires IsRun(s, actions, s')
    ensures |actions| + Work(s') <= Work(s) + Allowances(actions)
    decreases |actions|
  {
    if actions != [] {
      var next := Step(s, actions[0]).machine;
      StepWorks(s, actions[0], next);
      RunsAreBounded(next, actions[1..], s');
    }
  }

  ghost predicate AllIdle(s: Machine) {
    s.storers == map[] && s.callback == Idle
  }

  lemma {:induction false} NoAllowance(actions: seq<Action>)
    requires forall a :: a in actions ==> !Starts(a)
    ensures Allowances(actions) == 0
  {
    if actions != [] {
      assert actions[0] in actions;
      NoAllowance(actions[1..]);
    }
  }

  lemma BusyStepContinues(s: Machine)
    requires !AllIdle(s)
    ensures !Starts(BusyStep(s))
  {
  }

  lemma IdleExactlyWhen(s: Machine)
    requires Inv(s)
    ensures AllIdle(s) <==> forall a :: !Starts(a) ==> !Step(s, a).Next?
  {
    if !AllIdle(s) {
      BusyCanStep(s);
      BusyStepContinues(s);
    } else {
      forall a | !Starts(a)
        ensures !Step(s, a).Next?
      {
        IdleStays(s, a);
      }
    }
  }

  lemma IdleStays(s: Machine, a: Action)
    requires AllIdle(s) && !Starts(a)
    ensures Step(s, a) == Disabled
  {
  }

  lemma Reachable(actions: seq<Action>, s: Machine)
    requires IsRun(INITIAL, actions, s)
    ensures Inv(s) && Work(s) <= Allowances(actions)
  {
    RunKeepsInv(INITIAL, actions, s);
    RunsAreBounded(INITIAL, actions, s);
  }

  /** Busy threads finish, whatever the schedule: after any run, the busy threads take
      at most Work(s) steps while no operation is begun, and as long as one is busy some
      step is possible, so they stop exactly when all of them are idle. */
  lemma BusyThreadsFinish(actions: seq<Action>, s: Machine, more: seq<Action>, s': Machine)
    requires IsRun(INITIAL, actions, s) && IsRun(s, more, s')
    requires forall a :: a in more ==> !Starts(a)
    ensures |more| <= Work(s) <= Allowances(actions)
    ensures AllIdle(s') <==> forall a :: !Starts(a) ==> !Step(s', a).Next?
  {
    Reachable(actions, s);
    RunsAreBounded(s, more, s');
    NoAllowance(more);
    RunKeepsInv(s, more, s');
    IdleExactlyWhen(s');
  }

  // Which callbacks those are.

  /** The callback that an action begins. */
  function Begins(a: Action): seq<P.Event> {
    match a
    case BeginReq(id) => [P.Req2Buf(id)]
    case BeginResp(id, inbuffer) => [P.Buf2Resp(id, inbuffer)]
    case BeginEnd(id, errorType, errorCode) => [P.OnTaskEnd(id, errorType, errorCode)]
    case _ => []
  }

  ghost function Begun(actions: seq<Action>): seq<P.Event> {
    if actions == [] then [] else Begun(actions[..|actions| - 1]) + Begins(actions[|actions| - 1])
  }

  /** The callbacks of the engine among the events. */
  ghost function Calls(es: seq<P.Event>): seq<P.Event> {
    if es == [] then []
    else
      var e := es[|es| - 1];
      Calls(es[..|es| - 1]) + if e.Store? then [] else [e]
  }

  /** The callback that has begun and not yet taken effect. */
  ghost function Underway(cb: Callback): seq<P.Event> {
    match cb
    case ReqSeen(id) => [P.Req2Buf(id)]
    case ReqFound(id, _) => [P.Req2Buf(id)]
    case ReqMessage(id, _) => [P.Req2Buf(id)]
    case RespSeen(id, inbuffer) => [P.Buf2Resp(id, inbuffer)]
    case RespFound(id, _, inbuffer) => [P.Buf2Resp(id, inbuffer)]
    case EndSeen(id, t, code) => [P.OnTaskEnd(id, t, code)]
    case EndFound(id, _, t, code) => [P.OnTaskEnd(id, t, code)]
    case _ => []
  }

  ghost function Effects(s: Machine, a: Action): seq<P.Event> {
    match Effect(s, a)
    case None => []
    case Some(e) => if e.Store? then [] else [e]
  }

  lemma StorerCallsNothing(s: Machine, a: Action, s': Machine)
    requires !a.BeginReq? && !a.BeginResp? && !a.BeginEnd? && !a.Proceed? && StorerStep(s, a) == Next(s')
    ensures Effects(s, a) == [] && Begins(a) == [] && s'.callback == s.callback
  {
  }

  lemma BeginCalls(s: Machine, a: Action, s': Machine)
    requires (a.BeginReq? || a.BeginResp? || a.BeginEnd?) && BeginStep(s, a) == Next(s')
    ensures Underway(s.callback) == [] && Begins(a) == Effects(s, a) + Underway(s'.callback)
  {
    SearchCalls(a);
    SearchEffect(s, a);
    BeginMoves(s, a, s');
  }

  lemma SearchEffect(s: Machine, a: Action)
    requires a.BeginReq? || a.BeginResp? || a.BeginEnd?
    ensures Effect(s, a) == if s.HasEntry(Search(a).id) then None else Some(Call(Search(a)))
  {
  }

  lemma SearchCalls(a: Action)
    requires a.BeginReq? || a.BeginResp? || a.BeginEnd?
    ensures Begins(a) == Underway(Search(a)) == [Call(Search(a))] && !Call(Search(a)).Store?
  {
  }

  lemma LookupCalls(s: Machine, s': Machine)
    requires (s.callback.Looking() || s.callback.RemovalSeen?) && LookupStep(s) == Next(s')
    ensures Underway(s.callback) == Effects(s, Proceed) + Underway(s'.callback)
  {
  }

  lemma ReadCalls(s: Machine, s': Machine)
    requires s.callback.ReqFound? || s.callback.RespFound? || s.callback.EndFound? || s.callback.ReqMessage?
    requires ProceedStep(s) == Next(s')
    ensures Underway(s.callback) == Effects(s, Proceed) + Underway(s'.callback)
  {
  }

  lemma RemovalCalls(s: Machine, s': Machine)
    requires s.callback.Notified? || s.callback.RemovalFound? || s.callback.Changing()
    requires ProceedStep(s) == Next(s')
    ensures Underway(s.callback) == [] && Effects(s, Proceed) == [] && Underway(s'.callback) == []
  {
    if s.callback.RemovalMessage? || s.callback.Unlocked? {
      FreeStepIs(s, s');
    } else if s.callback.Changing() {
      LockingCalls(s, s');
    }
  }

  lemma LockingCalls(s: Machine, s': Machine)
    requires (s.callback.MessageFreed? || s.callback.HoldsMutex()) && ProceedStep(s) == Next(s')
    ensures Underway(s'.callback) == []
  {
  }

  /** A callback is begun, is under way, and takes effect, once. */
  lemma StepCalls(s: Machine, a: Action, s': Machine)
    requires Step(s, a) == Next(s')
    ensures Underway(s.callback) + Begins(a) == Effects(s, a) + Underway(s'.callback)
  {
    if a.BeginReq? || a.BeginResp? || a.BeginEnd? {
      BeginCalls(s, a, s');
    } else if !a.Proceed? {
      StorerCallsNothing(s, a, s');
    } else if s.callback.Looking() || s.callback.RemovalSeen? {
      LookupCalls(s, s');
    } else if s.callback.ReqFound? || s.callback.RespFound? || s.callback.EndFound? || s.callback.ReqMessage? {
      ReadCalls(s, s');
    } else {
      RemovalCalls(s, s');
    }
  }

  // Which tasks are stored.

  /** Some thread has begun to send a message with this id: the task is its frame, with
      the listener that the thread gave. */
  ghost predicate Asked(actions: seq<Action>, id: Uint32, task: P.Task) {
    exists k :: 0 <= k < |actions| && actions[k].NewMessage? && actions[k].id == id
                && |actions[k].body| <= MAX_INT
                && task == P.Task(Some(Frame(id, actions[k].body)), actions[k].listener)
  }

  /** What the storing threads hold is what they were asked to send. */
  ghost predicate ThreadsHold(storers: Threads, contexts: Contexts, messages: Messages, actions: seq<Action>) {
    && (forall t :: t in storers && storers[t].HasMessage? ==>
          && storers[t].msg in messages
          && Asked(actions, storers[t].id, P.Task(Some(messages[storers[t].msg]), storers[t].listener)))
    && (forall t :: t in storers && storers[t].OwnsContext() ==>
          && storers[t].ctx in contexts && contexts[storers[t].ctx].msg in messages
          && Asked(actions, storers[t].id, TaskAt(contexts, messages, storers[t].ctx)))
  }

  lemma AskedStays(actions: seq<Action>, a: Action)
    ensures forall id, task :: Asked(actions, id, task) ==> Asked(actions + [a], id, task)
  {
    forall id, task | Asked(actions, id, task)
      ensures Asked(actions + [a], id, task)
    {
      var k :| 0 <= k < |actions| && actions[k].NewMessage? && actions[k].id == id
               && |actions[k].body| <= MAX_INT
               && task == P.Task(Some(Frame(id, actions[k].body)), actions[k].listener);
      assert (actions + [a])[k] == actions[k];
    }
  }

  lemma HoldsLater(storers: Threads, contexts: Contexts, messages: Messages, actions: seq<Action>, a: Action)
    requires ThreadsHold(storers, contexts, messages, actions)
    ensures ThreadsHold(storers, contexts, messages, actions + [a])
  {
    AskedStays(actions, a);
  }

  lemma MessageHeldAnew(storers: Threads, contexts: Contexts, messages: Messages, actions: seq<Action>,
                        a: Action, m: Ref)
    requires ThreadsHold(storers, contexts, messages, actions) && m !in messages
    requires a.NewMessage? && |a.body| <= MAX_INT
    ensures ThreadsHold(storers[a.tid := HasMessage(a.id, m, a.listener)], contexts,
                        messages[m := Frame(a.id, a.body)], actions + [a])
  {
    AskedStays(actions, a);
    assert (actions + [a])[|actions|] == a;
    assert Asked(actions + [a], a.id, P.Task(Some(Frame(a.id, a.body)), a.listener));
  }

  lemma ContextHeldAnew(storers: Threads, contexts: Contexts, messages: Messages, actions: seq<Action>,
                        t: ThreadId, c: Ref)
    requires ThreadsHold(storers, contexts, messages, actions) && c !in contexts
    requires t in storers && storers[t].HasMessage?
    ensures ThreadsHold(storers[t := HasContext(storers[t].id, c)],
                        contexts[c := Context(storers[t].msg, storers[t].listener)], messages, actions)
  {
  }

  lemma HeldOn(storers: Threads, contexts: Contexts, messages: Messages, actions: seq<Action>, t: ThreadId, x: Storer)
    requires ThreadsHold(storers, contexts, messages, actions) && t in storers && !x.HasMessage?
    requires x.OwnsContext() ==> storers[t].OwnsContext() && x.ctx == storers[t].ctx && x.id == storers[t].id
    ensures ThreadsHold(storers[t := x], contexts, messages, actions)
    ensures ThreadsHold(storers - {t}, contexts, messages, actions)
  {
  }

  lemma AllocationHolds(s: Machine, a: Action, s': Machine, actions: seq<Action>)
    requires Inv(s) && (a.NewMessage? || a.NewContext?) && StorerStep(s, a) == Next(s')
    requires ThreadsHold(s.storers, s.contexts, s.messages, actions)
    ensures ThreadsHold(s'.storers, s'.contexts, s'.messages, actions + [a])
  {
    AllocateMessage(s.contexts, s.messages, s.born, s.freed, s.next, []);
    if a.NewMessage? {
      MessageHeldAnew(s.storers, s.contexts, s.messages, actions, a, s.next);
    } else {
      ContextHeldAnew(s.storers, s.contexts, s.messages, actions, a.tid, s.next);
      HoldsLater(s'.storers, s'.contexts, s'.messages, actions, a);
    }
  }

  lemma StoreHolds(s: Machine, a: Action, s': Machine, actions: seq<Action>)
    requires a.Lock? || a.Create? || a.Insert? || a.Check? || a.Read? || a.Unlock?
    requires StorerStep(s, a) == Next(s') && ThreadsHold(s.storers, s.contexts, s.messages, actions)
    ensures ThreadsHold(s'.storers, s'.contexts, s'.messages, actions)
  {
    HeldOn(s.storers, s.contexts, s.messages, actions, a.tid,
           if a.tid in s'.storers then s'.storers[a.tid] else Checked);
  }

  lemma FreedMessageNotHeld(s: Machine, actions: seq<Action>, c: Ref, m: Ref)
    requires ThreadsOwnContexts(s.storers, s.contextOwner) && ThreadsOwnMessages(s.storers, s.messageOwner)
    requires ContextsOwn(s.contexts, s.messageOwner, s.callback) && forall d :: !s.callback.FreedMessageOf(d)
    requires c in s.contextOwner && !s.contextOwner[c].ByThread? && Owns(s.messageOwner, m, OfContext(c))
    requires ThreadsHold(s.storers, s.contexts, s.messages, actions)
    ensures ThreadsHold(s.storers, s.contexts, s.messages - {m}, actions)
  {
    forall t | t in s.storers && s.storers[t].HasMessage?
      ensures s.storers[t].msg != m
    {
      assert Owns(s.messageOwner, s.storers[t].msg, OfThread(t));
    }
    forall t | t in s.storers && s.storers[t].OwnsContext()
      ensures s.contexts[s.storers[t].ctx].msg != m
    {
      assert Owns(s.contextOwner, s.storers[t].ctx, ByThread(t));
      assert Owns(s.messageOwner, s.contexts[s.storers[t].ctx].msg, OfContext(s.storers[t].ctx));
    }
  }

  lemma FreedContextNotHeld(s: Machine, actions: seq<Action>, c: Ref)
    requires ThreadsOwnContexts(s.storers, s.contextOwner) && Owns(s.contextOwner, c, ByRemoval)
    requires ThreadsHold(s.storers, s.contexts, s.messages, actions)
    ensures ThreadsHold(s.storers, s.contexts - {c}, s.messages, actions)
  {
    forall t | t in s.storers && s.storers[t].OwnsContext()
      ensures s.storers[t].ctx != c
    {
      assert Owns(s.contextOwner, s.storers[t].ctx, ByThread(t));
    }
  }

  lemma FreeHolds(s: Machine, s': Machine, actions: seq<Action>)
    requires Inv(s) && ProceedStep(s) == Next(s') && (s.callback.RemovalMessage? || s.callback.Unlocked?)
    requires ThreadsHold(s.storers, s.contexts, s.messages, actions)
    ensures ThreadsHold(s'.storers, s'.contexts, s'.messages, actions)
  {
    FreeStepIs(s, s');
    var c := s.callback.ctx;
    if s.callback.Unlocked? {
      assert Owns(s.contextOwner, c, ByRemoval);
      FreedContextNotHeld(s, actions, c);
    } else {
      CallbackContextLive(s, c);
      assert Owns(s.messageOwner, s.callback.msg, OfContext(c));
      FreedMessageNotHeld(s, actions, c, s.callback.msg);
    }
  }

  lemma LockingHolds(s: Machine, s': Machine)
    requires (s.callback.MessageFreed? || s.callback.HoldsMutex()) && ProceedStep(s) == Next(s')
    ensures s'.storers == s.storers && s'.contexts == s.contexts && s'.messages == s.messages
  {
  }

  lemma StepHolds(s: Machine, a: Action, s': Machine, actions: seq<Action>)
    requires Inv(s) && Step(s, a) == Next(s') && ThreadsHold(s.storers, s.contexts, s.messages, actions)
    ensures ThreadsHold(s'.storers, s'.contexts, s'.messages, actions + [a])
  {
    if a.NewMessage? || a.NewContext? {
      AllocationHolds(s, a, s', actions);
    } else {
      if a.BeginReq? || a.BeginResp? || a.BeginEnd? {
        BeginIsQuiet(s, a, s');
      } else if !a.Proceed? {
        StoreHolds(s, a, s', actions);
      } else {
        ProceedHolds(s, s', actions);
      }
      HoldsLater(s'.storers, s'.contexts, s'.messages, actions, a);
    }
  }

  lemma ProceedHolds(s: Machine, s': Machine, actions: seq<Action>)
    requires Inv(s) && ProceedStep(s) == Next(s') && ThreadsHold(s.storers, s.contexts, s.messages, actions)
    ensures ThreadsHold(s'.storers, s'.contexts, s'.messages, actions)
  {
    if s.callback.Looking() || s.callback.RemovalSeen? {
      LookupIsQuiet(s, s');
    } else if !s.callback.Changing() {
      ReadIsQuiet(s, s');
    } else if s.callback.RemovalMessage? || s.callback.Unlocked? {
      FreeHolds(s, s', actions);
    } else {
      LockingHolds(s, s');
    }
  }

  /** Callbacks that happen one at a time account for a machine state: they lead to what
      it stands for, they store only what threads were asked to send, and those of the
      engine are the ones it has begun, in order, but for one that is still under way. */
  ghost predicate Explains(es: seq<P.Event>, actions: seq<Action>, s: Machine) {
    && P.AllAllowed(P.EMPTY, es) && P.Run(P.EMPTY, es) == Abs(s)
    && Calls(es) + Underway(s.callback) == Begun(actions)
    && forall k :: 0 <= k < |es| && es[k].Store? ==> Asked(actions, es[k].id, es[k].task)
  }

  lemma HistoryGrows(es: seq<P.Event>, e: P.Event, actions: seq<Action>, a: Action)
    ensures Calls(es + [e]) == Calls(es) + if e.Store? then [] else [e]
    ensures Begun(actions + [a]) == Begun(actions) + Begins(a)
  {
    assert (es + [e])[..|es|] == es && (actions + [a])[..|actions|] == actions;
  }

  lemma StoredWasAsked(s: Machine, a: Action, s': Machine, actions: seq<Action>)
    requires Step(s, a) == Next(s') && ThreadsHold(s.storers, s.contexts, s.messages, actions)
    ensures var e := Effect(s, a);
            e.Some? && e.value.Store? ==> Asked(actions, e.value.id, e.value.task)
  {
    if a.Insert? {
      assert s.storers[a.tid].OwnsContext();
    }
  }

  /** The queue of callbacks, begun and carried out, moves on by one step. */
  lemma Queue<T>(calls: seq<T>, under: seq<T>, begun: seq<T>, begins: seq<T>, effects: seq<T>, under': seq<T>)
    requires calls + under == begun && under + begins == effects + under'
    ensures (calls + effects) + under' == begun + begins
  {
    Associative(calls, under, begins);
    Associative(calls, effects, under');
  }

  lemma Associative<T>(a: seq<T>, b: seq<T>, c: seq<T>)
    ensures (a + b) + c == a + (b + c)
  {
  }

  ghost function Appended(es: seq<P.Event>, effect: Option<P.Event>): seq<P.Event> {
    match effect
    case None => es
    case Some(e) => es + [e]
  }

  lemma EffectRuns(s: Machine, a: Action, s': Machine, es: seq<P.Event>)
    requires Simulates(s, a, s') && P.AllAllowed(P.EMPTY, es) && P.Run(P.EMPTY, es) == Abs(s)
    ensures var fs := Appended(es, Effect(s, a)); P.AllAllowed(P.EMPTY, fs) && P.Run(P.EMPTY, fs) == Abs(s')
  {
    if Effect(s, a).Some? {
      P.RunAppend(P.EMPTY, es, Effect(s, a).value);
    }
  }

  lemma EffectCalls(es: seq<P.Event>, effect: Option<P.Event>, actions: seq<Action>, a: Action)
    ensures Begun(actions + [a]) == Begun(actions) + Begins(a)
    ensures Calls(Appended(es, effect))
         == Calls(es) + (if effect.Some? && !effect.value.Store? then [effect.value] else [])
  {
    HistoryGrows(es, if effect.Some? then effect.value else P.Req2Buf(0), actions, a);
  }

  lemma EffectAsked(es: seq<P.Event>, effect: Option<P.Event>, actions: seq<Action>, a: Action)
    requires forall k :: 0 <= k < |es| && es[k].Store? ==> Asked(actions, es[k].id, es[k].task)
    requires effect.Some? && effect.value.Store? ==> Asked(actions, effect.value.id, effect.value.task)
    ensures var fs := Appended(es, effect);
            forall k :: 0 <= k < |fs| && fs[k].Store? ==> Asked(actions + [a], fs[k].id, fs[k].task)
  {
    AskedStays(actions, a);
  }

  lemma StepExplained(s: Machine, a: Action, s': Machine, es: seq<P.Event>, actions: seq<Action>)
    requires Step(s, a) == Next(s') && Simulates(s, a, s')
    requires ThreadsHold(s.storers, s.contexts, s.messages, actions) && Explains(es, actions, s)
    ensures Explains(Appended(es, Effect(s, a)), actions + [a], s')
  {
    EffectRuns(s, a, s', es);
    QueueMoves(s, a, s', es, actions);
    StoredWasAsked(s, a, s', actions);
    EffectAsked(es, Effect(s, a), actions, a);
  }

  lemma QueueMoves(s: Machine, a: Action, s': Machine, es: seq<P.Event>, actions: seq<Action>)
    requires Step(s, a) == Next(s') && Calls(es) + Underway(s.callback) == Begun(actions)
    ensures Calls(Appended(es, Effect(s, a))) + Underway(s'.callback) == Begun(actions + [a])
  {
    StepCalls(s, a, s');
    EffectCalls(es, Effect(s, a), actions, a);
    Queue(Calls(es), Underway(s.callback), Begun(actions), Begins(a), Effects(s, a), Underway(s'.callback));
  }

  lemma StepGoesOn(s: Machine, a: Action, s': Machine, es: seq<P.Event>, past: seq<Action>) returns (fs: seq<P.Event>)
    requires Inv(s) && Step(s, a) == Next(s')
    requires ThreadsHold(s.storers, s.contexts, s.messages, past) && Explains(es, past, s)
    ensures Inv(s') && ThreadsHold(s'.storers, s'.contexts, s'.messages, past + [a]) && Explains(fs, past + [a], s')
  {
    StepKeepsInv(s, a, s');
    StepSimulates(s, a, s');
    StepHolds(s, a, s', past);
    StepExplained(s, a, s', es, past);
    fs := Appended(es, Effect(s, a));
  }

  lemma Resumed<T>(past: seq<T>, actions: seq<T>)
    requires actions != []
    ensures past + [actions[0]] + actions[1..] == past + actions
  {
  }

  lemma {:induction false} RunExplained(s: Machine, actions: seq<Action>, s': Machine, es: seq<P.Event>,
                                        past: seq<Action>)
    returns (fs: seq<P.Event>)
    requires Inv(s) && IsRun(s, actions, s')
    requires ThreadsHold(s.storers, s.contexts, s.messages, past) && Explains(es, past, s)
    ensures Explains(fs, past + actions, s')
    decreases |actions|
  {
    if actions == [] {
      fs := es;
      assert past + actions == past;
    } else {
      var a, next := actions[0], Step(s, actions[0]).machine;
      fs := StepGoesOn(s, a, next, es, past);
      fs := RunExplained(next, actions[1..], s', fs, past + [a]);
      Resumed(past, actions);
    }
  }

  /** Every interleaving looks from the outside like callbacks that happen one at a
      time: the engine's, in the order in which it began them, and stores of what the
      threads were asked to send. They store the same ids, give the listeners the same
      calls and the engine the same answers in the same order, and leave the same tasks.
      So each task has its lifecycle in every interleaving too. */
  lemma InterleavingsAreAtomic(actions: seq<Action>, s: Machine) returns (es: seq<P.Event>)
    requires IsRun(INITIAL, actions, s)
    ensures P.AllAllowed(P.EMPTY, es) && P.Run(P.EMPTY, es) == Abs(s)
    ensures Calls(es) + Underway(s.callback) == Begun(actions)
    ensures forall k :: 0 <= k < |es| && es[k].Store? ==> Asked(actions, es[k].id, es[k].task)
    ensures P.Lifecycle(s.log)
  {
    assert Abs(INITIAL) == P.EMPTY;
    es := RunExplained(INITIAL, actions, s, [], []);
    assert [] + actions == actions;
    P.LifecycleHolds(es);
  }
}
