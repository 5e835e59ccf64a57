/**
  The per-connection state machine of ReadCallback, HandleRequest,
  SetCallback and ReceiveNewInput (Program.cs:98-260, 296-304). The socket
  is abstract: each step receives the text of one completed receive (a
  chunk), and an empty chunk is a zero-byte read.
 */
module Session {
  import opened Wrappers
  import opened Text
  import opened Protocol
  import opened Storage

  /** Which receive callback the connection is waiting in. */
  datatype Mode =
    | ReadingCommand  // ReadCallback is pending: a request line is being read
    | ReadingPayload  // SetCallback is pending: the payload of a `set` is being read
    | Ended           // no receive is pending: a zero-byte read ended the session

  /** The fields of StateObject the connection updates (Program.cs:20-29) and the pending callback. */
  datatype SessionState = SessionState(sb: string, setBufferSize: int, setKey: string, mode: Mode)

  /** A freshly accepted connection (Program.cs:91-95). */
  const Accepted: SessionState := SessionState([], 0, [], ReadingCommand)

  /** The result of one step: the new session, the new store and the reply sent, if any. */
  datatype Outcome = Outcome(session: SessionState, cache: Cache, reply: Option<string>)

  /** Send(text), whose completion runs ReceiveNewInput: the buffer is cleared and a request line is read next. */
  function Replied(s: SessionState, c: Cache, text: string): Outcome {
    Outcome(s.(sb := [], mode := ReadingCommand), c, Some(text))
  }

  /**
    The text HandleRequest replies at once to every request line but a valid
    `set` (Program.cs:142-191, 217-221); a `get` reports the stored value or
    MISSING (Program.cs:154-165).
   */
  function ImmediateReply(c: Cache, request: Request): string
    requires !request.Set?
  {
    match request
    case Get(key) => (match Find(c, key) case Some(value) => HitReply(value) case None => MissingReply)
    case GetUsage => GetUsageReply
    case SetUsage => SetUsageReply
    case SizeNotNumber(token) => SizeNotNumberReply(token)
    case SizeTooLarge => SizeTooLargeReply
    case Unknown => UnknownReply
  }

  /**
    HandleRequest on a classified request line (Program.cs:142-221): every
    request but a valid `set` is answered at once and leaves the store alone;
    a valid `set` evicts, clears the buffer and waits for `size` characters.
   */
  function Dispatch(s: SessionState, c: Cache, request: Request): (o: Outcome)
    ensures o.reply.None? <==> request.Set?
    ensures o.reply.Some? ==> o.session.sb == [] && o.session.mode == ReadingCommand && o.cache == c
    ensures o.reply.None? ==> o.session.sb == [] && o.session.mode == ReadingPayload
    ensures request.Set? ==> o.session.setBufferSize == request.size && o.session.setKey == request.key
  {
    if request.Set? then
      Outcome(SessionState([], request.size, request.key, ReadingPayload), Evicted(c, request.size), None)
    else
      Replied(s, c, ImmediateReply(c, request))
  }

  /**
    One completed receive. In command mode the chunk is appended and the
    request is handled once the buffer holds "\r\n" (Program.cs:114-125). In
    payload mode the chunk is appended and the value is committed once the
    buffer's length equals the expected size exactly (Program.cs:239-253).
    A zero-byte read posts no further receive (Program.cs:112, 237).
   */
  function Transition(s: SessionState, c: Cache, chunk: string): (o: Outcome)
    ensures o.reply.Some? ==> o.session.sb == [] && o.session.mode == ReadingCommand
    ensures s.mode != ReadingPayload && o.session.mode == ReadingPayload ==> o.session.sb == []
    ensures o.reply.None? && o.session.mode == s.mode ==> o.cache == c
    ensures s.mode == Ended ==> o == Outcome(s, c, None)
  {
    if s.mode == Ended then Outcome(s, c, None)
    else if chunk == [] then Outcome(s.(mode := Ended), c, None)
    else
      var content := s.sb + chunk;
      if s.mode == ReadingCommand then
        if IndexOfCrLf(content) > -1 then Dispatch(s, c, ParseRequest(content))
        else Outcome(s.(sb := content), c, None)
      else if |content| == s.setBufferSize then
        Replied(s, Committed(c, s.setKey, content), StoredReply)
      else Outcome(s.(sb := content), c, None)
  }

  /** Dispatch does not look at the buffer it is about to clear. */
  lemma DispatchIgnoresBuffer(s: SessionState, t: SessionState, c: Cache, request: Request)
    requires t == s.(sb := t.sb)
    ensures Dispatch(t, c, request) == Dispatch(s, c, request)
  {
  }

  /** A receive that completes "\r\n" in command mode hands the whole buffer to HandleRequest. */
  lemma CommandCompleted(s: SessionState, c: Cache, chunk: string)
    requires s.mode == ReadingCommand && chunk != [] && IndexOfCrLf(s.sb + chunk) > -1
    ensures Transition(s, c, chunk) == Dispatch(s.(sb := s.sb + chunk), c, ParseRequest(s.sb + chunk))
  {
    DispatchIgnoresBuffer(s, s.(sb := s.sb + chunk), c, ParseRequest(s.sb + chunk));
  }

  /** A receive in command mode that leaves the buffer without "\r\n" only appends to it. */
  lemma CommandPending(s: SessionState, c: Cache, chunk: string)
    requires s.mode == ReadingCommand && chunk != [] && IndexOfCrLf(s.sb + chunk) == -1
    ensures Transition(s, c, chunk) == Outcome(s.(sb := s.sb + chunk), c, None)
  {
  }

  /** The session after a sequence of receives, with the replies sent in order. */
  datatype Trace = Trace(session: SessionState, cache: Cache, replies: seq<string>)

  /**
    The session after `chunks` are handed one by one to `step`, with the
    replies sent in order. A run is the same for every step function in
    everything but the step, so its lemmas are proved once for all of them.
   */
  function Feed(step: (SessionState, Cache, string) -> Outcome, s: SessionState, c: Cache, chunks: seq<string>): Trace
    decreases |chunks|
  {
    if chunks == [] then Trace(s, c, [])
    else
      var o := step(s, c, chunks[0]);
      var t := Feed(step, o.session, o.cache, chunks[1..]);
      Trace(t.session, t.cache, (if o.reply.Some? then [o.reply.value] else []) + t.replies)
  }

  /** The session after a sequence of receives, with the replies sent in order. */
  function Run(s: SessionState, c: Cache, chunks: seq<string>): Trace {
    Feed(Transition, s, c, chunks)
  }

  /** The connection's StateObject, as the callbacks update it. */
  class Connection {
    var sb: string
    var setBufferSize: int
    var setKey: string
    var mode: Mode

    function State(): SessionState
      reads this
    {
      SessionState(sb, setBufferSize, setKey, mode)
    }

    /** AcceptCallback: a new StateObject, then a receive in command mode (Program.cs:91-95). */
    constructor ()
      ensures State() == Accepted
    {
      sb := [];
      setBufferSize := 0;
      setKey := [];
      mode := ReadingCommand;
    }

    /** ReceiveNewInput (Program.cs:296-304), run once a reply has been sent. */
    method ReceiveNewInput()
      modifies this
      ensures State() == old(State()).(sb := [], mode := ReadingCommand)
    {
      sb := [];
      mode := ReadingCommand;
    }

    /**
      HandleRequest (Program.cs:134-222): the request line is classified, then
      answered; a reply stands for Send followed by ReceiveNewInput.
     */
    method HandleRequest(store: Store, content: string) returns (reply: Option<string>)
      requires store.Valid()
      modifies this, store
      ensures store.Valid()
      ensures Outcome(State(), store.Snapshot(), reply) == Dispatch(old(State()), old(store.Snapshot()), ParseRequest(content))
    {
      var request := ParseRequest(content);
      reply := Answer(store, request);
    }

    /** The branches of HandleRequest (Program.cs:142-221) on a classified request line. */
    method Answer(store: Store, request: Request) returns (reply: Option<string>)
      requires store.Valid()
      requires request.Set? ==> request.size <= MaxValueBytes
      modifies this, store
      ensures store.Valid()
      ensures Outcome(State(), store.Snapshot(), reply) == Dispatch(old(State()), old(store.Snapshot()), request)
    {
      if request.Set? {
        AwaitPayload(store, request.key, request.size);
        reply := None;
      } else {
        var text := ReplyText(store, request);
        reply := Some(text);
        ReceiveNewInput();
      }
    }

    /**
      An accepted `set` (Program.cs:195-213): make room for `size` characters,
      clear the buffer, remember the key and the size and wait for the payload.
     */
    method AwaitPayload(store: Store, key: string, size: int)
      requires store.Valid() && size <= MaxValueBytes
      modifies this, store
      ensures store.Valid() && store.currentValueBytes + size <= MaxValueBytes
      ensures store.Snapshot() == Evicted(old(store.Snapshot()), size)
      ensures State() == SessionState([], size, key, ReadingPayload)
    {
      store.Evict(size);
      sb := [];
      setBufferSize := size;
      setKey := key;
      mode := ReadingPayload;
    }

    /** The reply HandleRequest sends at once; a `get` consults the store (Program.cs:154-165). */
    method ReplyText(store: Store, request: Request) returns (text: string)
      requires store.Valid() && !request.Set?
      ensures text == ImmediateReply(store.Snapshot(), request)
    {
      match request
      case Get(key) =>
        var found := store.Lookup(key);
        text := if found.Some? then HitReply(found.value) else MissingReply;
      case GetUsage => text := GetUsageReply;
      case SetUsage => text := SetUsageReply;
      case SizeNotNumber(token) => text := SizeNotNumberReply(token);
      case SizeTooLarge => text := SizeTooLargeReply;
      case Unknown => text := UnknownReply;
    }

    /** ReadCallback (Program.cs:98-132). */
    method ReadCallback(store: Store, chunk: string) returns (reply: Option<string>)
      requires store.Valid() && mode == ReadingCommand
      modifies this, store
      ensures store.Valid()
      ensures Outcome(State(), store.Snapshot(), reply) == Transition(old(State()), old(store.Snapshot()), chunk)
    {
      if chunk == [] {
        mode := Ended;
        return None;
      }
      ghost var s0, c0 := State(), store.Snapshot();
      sb := sb + chunk;
      var content := sb;
      if IndexOfCrLf(content) > -1 {
        CommandCompleted(s0, c0, chunk);
        reply := HandleRequest(store, content);
      } else {
        CommandPending(s0, c0, chunk);
        reply := None;
      }
    }

    /** SetCallback (Program.cs:224-260). */
    method SetCallback(store: Store, chunk: string) returns (reply: Option<string>)
      requires store.Valid() && mode == ReadingPayload
      modifies this, store
      ensures store.Valid()
      ensures Outcome(State(), store.Snapshot(), reply) == Transition(old(State()), old(store.Snapshot()), chunk)
    {
      if chunk == [] {
        mode := Ended;
        return None;
      }
      sb := sb + chunk;
      var content := sb;
      if |content| == setBufferSize {
        store.Commit(setKey, content);
        reply := Some(StoredReply);
        ReceiveNewInput();
      } else {
        reply := None;
      }
    }

    /** One completed receive, handed to whichever callback is pending. */
    method Step(store: Store, chunk: string) returns (reply: Option<string>)
      requires store.Valid()
      modifies this, store
      ensures store.Valid()
      ensures Outcome(State(), store.Snapshot(), reply) == Transition(old(State()), old(store.Snapshot()), chunk)
    {
      match mode
      case Ended =>
        reply := None;
      case ReadingCommand =>
        reply := ReadCallback(store, chunk);
      case ReadingPayload =>
        reply := SetCallback(store, chunk);
    }
  }
}
