/**
  What the session promises over whole sequences of receives: the store's
  invariant is kept, input is framed into request lines and payloads however
  it is cut into chunks, every request line gets its exact reply, and a
  stored value is read back by a later `get`.
 */
module SessionProperties {
  import opened Wrappers
  import opened Text
  import opened Storage
  import opened Protocol
  import opened Session

  /** The chunks laid end to end: the characters the client sent. */
  function Concat(pieces: seq<string>): string {
    if pieces == [] then [] else pieces[0] + Concat(pieces[1..])
  }

  /** Every receive delivered at least one character. */
  predicate NonEmpty(pieces: seq<string>) {
    forall i :: 0 <= i < |pieces| ==> pieces[i] != []
  }

  /**
    The invariant a session keeps together with the store: the store is
    consistent and within the budget, and while a payload is awaited the
    budget has room for it (eviction made that room).
   */
  ghost predicate Coupled(s: SessionState, c: Cache) {
    && Consistent(c)
    && WithinCapacity(c)
    && (s.mode == ReadingPayload ==> c.used + s.setBufferSize <= MaxValueBytes)
  }

  /** A session where a request line starts: in command mode with an empty buffer. */
  predicate AtLineStart(s: SessionState) {
    s.mode == ReadingCommand && s.sb == []
  }

  lemma {:induction false} ConcatAppend(pieces: seq<string>, p: string)
    ensures Concat(pieces + [p]) == Concat(pieces) + p
  {
    if pieces == [] {
      assert [] + [p] == [p];
    } else {
      assert (pieces + [p])[1..] == pieces[1..] + [p];
      ConcatAppend(pieces[1..], p);
    }
  }

  /** The pieces are the ones before the last, then the last. */
  lemma ConcatLast(pieces: seq<string>, prefix: string)
    requires |pieces| > 0
    ensures pieces == pieces[..|pieces| - 1] + [pieces[|pieces| - 1]]
    ensures prefix + Concat(pieces) == (prefix + Concat(pieces[..|pieces| - 1])) + pieces[|pieces| - 1]
  {
    var init := pieces[..|pieces| - 1];
    var last := pieces[|pieces| - 1];
    LastSplitOff(pieces);
    ConcatAppend(init, last);
    AppendAssociates(prefix, Concat(init), last);
  }

  lemma LastSplitOff<T>(xs: seq<T>)
    requires |xs| > 0
    ensures xs == xs[..|xs| - 1] + [xs[|xs| - 1]]
  {
  }

  lemma AppendAssociates(a: string, b: string, c: string)
    ensures a + (b + c) == (a + b) + c
  {
  }

  /** Feeding two sequences of chunks one after the other is feeding their concatenation. */
  lemma {:induction false} FeedAppend(step: (SessionState, Cache, string) -> Outcome, s: SessionState, c: Cache, a: seq<string>, b: seq<string>)
    ensures var t := Feed(step, s, c, a); var u := Feed(step, t.session, t.cache, b);
      Feed(step, s, c, a + b) == Trace(u.session, u.cache, t.replies + u.replies)
    decreases |a|
  {
    if a == [] {
      assert [] + b == b;
    } else {
      var o := step(s, c, a[0]);
      var r := if o.reply.Some? then [o.reply.value] else [];
      var t := Feed(step, o.session, o.cache, a[1..]);
      var u := Feed(step, t.session, t.cache, b);
      assert (a + b)[0] == a[0];
      assert (a + b)[1..] == a[1..] + b;
      FeedAppend(step, o.session, o.cache, a[1..], b);
      assert r + (t.replies + u.replies) == (r + t.replies) + u.replies;
    }
  }

  /** Chunks that change nothing but the session, then one more chunk: only the last one is seen outside. */
  lemma FeedQuietThen(step: (SessionState, Cache, string) -> Outcome, s: SessionState, c: Cache, init: seq<string>, last: string, t: SessionState)
    requires Feed(step, s, c, init) == Trace(t, c, [])
    ensures var o := step(t, c, last);
      Feed(step, s, c, init + [last]) == Trace(o.session, o.cache, if o.reply.Some? then [o.reply.value] else [])
  {
    FeedAppend(step, s, c, init, [last]);
    FeedSingle(step, t, c, last);
    var o := step(t, c, last);
    var r := if o.reply.Some? then [o.reply.value] else [];
    assert [] + r == r;
  }

  /** One chunk with a known outcome, then chunks with a known run. */
  lemma FeedFirst(step: (SessionState, Cache, string) -> Outcome, s: SessionState, c: Cache, first: string, rest: seq<string>, o: Outcome, t: Trace)
    requires step(s, c, first) == o && Feed(step, o.session, o.cache, rest) == t
    ensures Feed(step, s, c, [first] + rest) == Trace(t.session, t.cache, (if o.reply.Some? then [o.reply.value] else []) + t.replies)
  {
    assert ([first] + rest)[0] == first;
    assert ([first] + rest)[1..] == rest;
  }

  /** Chunks with a known run, then one chunk with a known outcome. */
  lemma FeedLast(step: (SessionState, Cache, string) -> Outcome, s: SessionState, c: Cache, init: seq<string>, last: string, t: Trace, o: Outcome)
    requires Feed(step, s, c, init) == t && step(t.session, t.cache, last) == o
    ensures Feed(step, s, c, init + [last]) == Trace(o.session, o.cache, t.replies + (if o.reply.Some? then [o.reply.value] else []))
  {
    FeedAppend(step, s, c, init, [last]);
    FeedSingle(step, t.session, t.cache, last);
  }

  /** Running two sequences of receives one after the other is running their concatenation. */
  lemma RunAppend(s: SessionState, c: Cache, a: seq<string>, b: seq<string>)
    ensures var t := Run(s, c, a); var u := Run(t.session, t.cache, b);
      Run(s, c, a + b) == Trace(u.session, u.cache, t.replies + u.replies)
  {
    FeedAppend(Transition, s, c, a, b);
  }

  lemma FeedSingle(step: (SessionState, Cache, string) -> Outcome, s: SessionState, c: Cache, chunk: string)
    ensures var o := step(s, c, chunk);
      Feed(step, s, c, [chunk]) == Trace(o.session, o.cache, if o.reply.Some? then [o.reply.value] else [])
  {
    var o := step(s, c, chunk);
    assert [chunk][0] == chunk && [chunk][1..] == [];
    assert Feed(step, o.session, o.cache, []) == Trace(o.session, o.cache, []);
    var r := if o.reply.Some? then [o.reply.value] else [];
    assert r + [] == r;
  }

  lemma RunSingle(s: SessionState, c: Cache, chunk: string)
    ensures var o := Transition(s, c, chunk);
      Run(s, c, [chunk]) == Trace(o.session, o.cache, if o.reply.Some? then [o.reply.value] else [])
  {
    FeedSingle(Transition, s, c, chunk);
  }

  /** A request line, as a client writes it, holds "\r\n". */
  lemma LineHasCrLf(words: seq<string>)
    ensures IndexOfCrLf(Line(words)) > -1
  {
    assert HasCrLfAt(Line(words), |Join(words, ' ')|);
  }

  /** A whole request line at the start of a line is handed to HandleRequest as it is (Program.cs:114-118). */
  lemma LineDispatched(s: SessionState, c: Cache, line: string)
    requires AtLineStart(s) && IndexOfCrLf(line) > -1
    ensures Transition(s, c, line) == Dispatch(s, c, ParseRequest(line))
  {
    assert s.sb + line == line;
  }

  /** A request line HandleRequest answers at once gets its reply and leaves the store alone. */
  lemma LineAnswered(s: SessionState, c: Cache, line: string, request: Request)
    requires AtLineStart(s) && IndexOfCrLf(line) > -1 && ParseRequest(line) == request && !request.Set?
    ensures Transition(s, c, line) == Outcome(s, c, Some(ImmediateReply(c, request)))
  {
    LineDispatched(s, c, line);
  }

  /** A request line HandleRequest answers at once gets its reply and leaves the session and the store as they were. */
  lemma WordsAnswered(s: SessionState, c: Cache, words: seq<string>, request: Request, text: string)
    requires AtLineStart(s) && ParseRequest(Line(words)) == request && !request.Set?
    requires ImmediateReply(c, request) == text
    ensures Transition(s, c, Line(words)) == Outcome(s, c, Some(text))
  {
    LineHasCrLf(words);
    LineAnswered(s, c, Line(words), request);
  }

  /** One receive keeps the invariant (Program.cs:197-205, 244-245 with the corrected commit). */
  lemma TransitionKeepsCoupled(s: SessionState, c: Cache, chunk: string)
    requires Coupled(s, c)
    ensures var o := Transition(s, c, chunk); Coupled(o.session, o.cache)
  {
    var o := Transition(s, c, chunk);
    if s.mode != Ended && chunk != [] {
      var content := s.sb + chunk;
      if s.mode == ReadingCommand && IndexOfCrLf(content) > -1 {
        var request := ParseRequest(content);
        if request.Set? {
          EvictedConsistent(c, request.size);
          EvictedFits(c, request.size);
          EvictedRemovesPrefix(c, request.size);
        }
      } else if s.mode == ReadingPayload && |content| == s.setBufferSize {
        CommittedConsistent(c, s.setKey, content);
      }
    }
  }

  /**
    Any sequence of receives keeps the invariant: the counter is always the
    sum of the stored lengths and never exceeds MAX_VALUE_BYTES.
   */
  lemma {:induction false} RunKeepsCoupled(s: SessionState, c: Cache, chunks: seq<string>)
    requires Coupled(s, c)
    ensures var t := Run(s, c, chunks); Coupled(t.session, t.cache)
    decreases |chunks|
  {
    if chunks != [] {
      var o := Transition(s, c, chunks[0]);
      TransitionKeepsCoupled(s, c, chunks[0]);
      RunKeepsCoupled(o.session, o.cache, chunks[1..]);
    }
  }

  /** A new connection on a fresh store starts out coupled. */
  lemma AcceptedCoupled()
    ensures Coupled(Accepted, Empty)
  {
  }

  /**
    In command mode, input that holds no "\r\n" only accumulates: nothing is
    dispatched, nothing is replied and the store is untouched
    (Program.cs:114-128).
   */
  lemma {:induction false} CommandAccumulates(s: SessionState, c: Cache, pieces: seq<string>)
    requires s.mode == ReadingCommand && NonEmpty(pieces)
    requires IndexOfCrLf(s.sb + Concat(pieces)) == -1
    ensures Run(s, c, pieces) == Trace(s.(sb := s.sb + Concat(pieces)), c, [])
    decreases |pieces|
  {
    if pieces != [] {
      var content := s.sb + pieces[0];
      assert s.sb + Concat(pieces) == content + Concat(pieces[1..]);
      if IndexOfCrLf(content) > -1 {
        CrLfStaysFound(content, Concat(pieces[1..]));
        assert false;
      }
      CommandAccumulates(s.(sb := content), c, pieces[1..]);
    }
  }

  /**
    A request line delivered in any number of pieces is handled once, on the
    whole buffer, when the last piece completes "\r\n" (Program.cs:116-125).
   */
  lemma CommandInPieces(s: SessionState, c: Cache, init: seq<string>, last: string)
    requires s.mode == ReadingCommand && NonEmpty(init) && last != []
    requires IndexOfCrLf(s.sb + Concat(init)) == -1
    requires IndexOfCrLf(s.sb + Concat(init) + last) > -1
    ensures var o := Dispatch(s, c, ParseRequest(s.sb + Concat(init) + last));
      Run(s, c, init + [last]) == Trace(o.session, o.cache, if o.reply.Some? then [o.reply.value] else [])
  {
    var s' := s.(sb := s.sb + Concat(init));
    CommandAccumulatesThen(s, c, init, last);
    CommandCompleted(s', c, last);
    DispatchIgnoresBuffer(s, s'.(sb := s'.sb + last), c, ParseRequest(s'.sb + last));
  }

  /** Pieces without "\r\n" and one more piece: only the last receive is seen outside. */
  lemma CommandAccumulatesThen(s: SessionState, c: Cache, init: seq<string>, last: string)
    requires s.mode == ReadingCommand && NonEmpty(init)
    requires IndexOfCrLf(s.sb + Concat(init)) == -1
    ensures var o := Transition(s.(sb := s.sb + Concat(init)), c, last);
      Run(s, c, init + [last]) == Trace(o.session, o.cache, if o.reply.Some? then [o.reply.value] else [])
  {
    CommandAccumulates(s, c, init);
    FeedQuietThen(Transition, s, c, init, last, s.(sb := s.sb + Concat(init)));
  }

  /**
    In payload mode, input shorter than the expected size only accumulates:
    nothing is stored and nothing is replied (Program.cs:239-241, 250-253).
   */
  lemma {:induction false} PayloadAccumulates(s: SessionState, c: Cache, pieces: seq<string>)
    requires s.mode == ReadingPayload && NonEmpty(pieces)
    requires |s.sb + Concat(pieces)| < s.setBufferSize
    ensures Run(s, c, pieces) == Trace(s.(sb := s.sb + Concat(pieces)), c, [])
    decreases |pieces|
  {
    if pieces != [] {
      var content := s.sb + pieces[0];
      assert s.sb + Concat(pieces) == content + Concat(pieces[1..]);
      PayloadAccumulates(s.(sb := content), c, pieces[1..]);
    }
  }

  /**
    A payload delivered in any number of pieces is stored under the
    remembered key once its length reaches the expected size; the reply is
    OK and the buffer is empty again (Program.cs:242-247, 301).
   */
  lemma PayloadInPieces(s: SessionState, c: Cache, pieces: seq<string>)
    requires s.mode == ReadingPayload && NonEmpty(pieces) && |pieces| > 0
    requires |s.sb + Concat(pieces)| == s.setBufferSize
    ensures Run(s, c, pieces) ==
      Trace(s.(sb := [], mode := ReadingCommand), Committed(c, s.setKey, s.sb + Concat(pieces)), [StoredReply])
  {
    var init := pieces[..|pieces| - 1];
    var last := pieces[|pieces| - 1];
    ConcatLast(pieces, s.sb);
    PayloadAccumulates(s, c, init);
    RunAppend(s, c, init, [last]);
    var s' := s.(sb := s.sb + Concat(init));
    RunSingle(s', c, last);
  }

  /**
    Once the buffer is as long as the expected size or longer, the length can
    never equal it again: every later receive only accumulates, and the
    connection never replies (Program.cs:242, 250-253).
   */
  lemma {:induction false} PayloadOverrunStalls(s: SessionState, c: Cache, chunks: seq<string>)
    requires s.mode == ReadingPayload && NonEmpty(chunks)
    requires s.setBufferSize <= |s.sb|
    ensures Run(s, c, chunks) == Trace(s.(sb := s.sb + Concat(chunks)), c, [])
    decreases |chunks|
  {
    if chunks != [] {
      var content := s.sb + chunks[0];
      assert s.sb + Concat(chunks) == content + Concat(chunks[1..]);
      PayloadOverrunStalls(s.(sb := content), c, chunks[1..]);
    }
  }

  /**
    `get <key>` answers with the stored value after "OK <length>\r\n", or
    with MISSING, and changes nothing (Program.cs:153-165).
   */
  lemma GetRequest(s: SessionState, c: Cache, key: string)
    requires AtLineStart(s) && GetKey(key)
    ensures key in c.values ==>
      Transition(s, c, Line(["get", key])) == Outcome(s, c, Some("OK " + NatToString(|c.values[key]|) + "\r\n" + c.values[key]))
    ensures key !in c.values ==>
      Transition(s, c, Line(["get", key])) == Outcome(s, c, Some("MISSING\r\n"))
  {
    ParseGet(key);
    if key in c.values {
      WordsAnswered(s, c, ["get", key], Get(key), "OK " + NatToString(|c.values[key]|) + "\r\n" + c.values[key]);
    } else {
      WordsAnswered(s, c, ["get", key], Get(key), "MISSING\r\n");
    }
  }

  /** `get` with a token count other than 2 is answered with the usage text and changes nothing (Program.cs:146-150). */
  lemma GetWrongCount(s: SessionState, c: Cache, words: seq<string>)
    requires AtLineStart(s) && PlainWords(words) && words[0] == "get" && |words| != 2
    ensures Transition(s, c, Line(words)) == Outcome(s, c, Some("Error: Usage - get <key>\r\n"))
  {
    ParseGetWrongCount(words);
    WordsAnswered(s, c, words, GetUsage, "Error: Usage - get <key>\r\n");
  }

  /** `set` with a token count other than 3 is answered with the usage text and changes nothing (Program.cs:173-178). */
  lemma SetWrongCount(s: SessionState, c: Cache, words: seq<string>)
    requires AtLineStart(s) && PlainWords(words) && words[0] == "set" && |words| != 3
    ensures Transition(s, c, Line(words)) == Outcome(s, c, Some("Error: Usage - set <key> <size>\r\n"))
  {
    ParseSetWrongCount(words);
    WordsAnswered(s, c, words, SetUsage, "Error: Usage - set <key> <size>\r\n");
  }

  /** A size that int.TryParse refuses is echoed back in the error and changes nothing (Program.cs:179-184). */
  lemma SetNotNumber(s: SessionState, c: Cache, key: string, token: string)
    requires AtLineStart(s) && ' ' !in key && |token| > 0 && NoWhiteSpace(token)
    requires TryParseInt32(token) == None
    ensures Transition(s, c, Line(["set", key, token]))
      == Outcome(s, c, Some("Error: Size has to be a number (Received: " + token + ")\r\n"))
  {
    ParseSetNotNumber(key, token);
    WordsAnswered(s, c, ["set", key, token], SizeNotNumber(token), "Error: Size has to be a number (Received: " + token + ")\r\n");
  }

  /** A size beyond 32 bits gets the not-a-number error, not the too-large one (Program.cs:179-184). */
  lemma SetOverflow(s: SessionState, c: Cache, key: string, size: nat)
    requires AtLineStart(s) && ' ' !in key && size > Int32Max
    ensures Transition(s, c, Line(["set", key, NatToString(size)]))
      == Outcome(s, c, Some("Error: Size has to be a number (Received: " + NatToString(size) + ")\r\n"))
  {
    ParseSetOverflow(key, size);
    WordsAnswered(s, c, ["set", key, NatToString(size)], SizeNotNumber(NatToString(size)), "Error: Size has to be a number (Received: " + NatToString(size) + ")\r\n");
  }

  /** A 32-bit size above 128000000 is refused with the budget in the text and changes nothing (Program.cs:186-191). */
  lemma SetTooLarge(s: SessionState, c: Cache, key: string, size: nat)
    requires AtLineStart(s) && ' ' !in key && MaxValueBytes < size <= Int32Max
    ensures Transition(s, c, Line(["set", key, NatToString(size)]))
      == Outcome(s, c, Some("Error: Size has to be less than " + "128000000" + "\r\n"))
  {
    ParseSetTooLarge(key, size);
    TooLargeText(c);
    WordsAnswered(s, c, ["set", key, NatToString(size)], SizeTooLarge, "Error: Size has to be less than " + "128000000" + "\r\n");
  }

  lemma TooLargeText(c: Cache)
    ensures ImmediateReply(c, SizeTooLarge) == "Error: Size has to be less than " + "128000000" + "\r\n"
  {
    SizeTooLargeReplyText();
  }

  /** Any other first word is answered with the unknown-request text and changes nothing (Program.cs:217-221). */
  lemma UnknownRequest(s: SessionState, c: Cache, words: seq<string>)
    requires AtLineStart(s) && PlainWords(words) && words[0] != "get" && words[0] != "set"
    ensures Transition(s, c, Line(words)) == Outcome(s, c, Some("Unknown request received\r\n"))
  {
    ParseUnknown(words);
    WordsAnswered(s, c, words, Unknown, "Unknown request received\r\n");
  }

  /**
    An accepted `set <key> <size>` sends no reply, evicts until the size fits,
    and waits with an empty buffer for `size` characters under `key`
    (Program.cs:195-213).
   */
  lemma SetAccepted(s: SessionState, c: Cache, key: string, size: nat)
    requires AtLineStart(s) && ' ' !in key && size <= MaxValueBytes
    ensures var o := Transition(s, c, Line(["set", key, NatToString(size)]));
      && o.reply == None
      && o.session == SessionState([], size, key, ReadingPayload)
      && o.cache == Evicted(c, size)
  {
    LineHasCrLf(["set", key, NatToString(size)]);
    LineDispatched(s, c, Line(["set", key, NatToString(size)]));
    ParseSet(key, size);
  }

  /**
    `set <key> -<n>` passes validation (Program.cs:179-191) and then no
    payload can ever complete: the connection never replies again.
   */
  lemma NegativeSizeStalls(s: SessionState, c: Cache, key: string, n: nat, chunks: seq<string>)
    requires AtLineStart(s) && ' ' !in key && 0 < n <= -Int32Min && NonEmpty(chunks)
    ensures Run(s, c, [Line(["set", key, "-" + NatToString(n)])] + chunks).replies == []
  {
    var line := Line(["set", key, "-" + NatToString(n)]);
    LineHasCrLf(["set", key, "-" + NatToString(n)]);
    LineDispatched(s, c, Line(["set", key, "-" + NatToString(n)]));
    ParseSetNegative(key, n);
    RunSingle(s, c, line);
    var o := Transition(s, c, line);
    assert o.session == SessionState([], -(n as int), key, ReadingPayload);
    RunAppend(s, c, [line], chunks);
    PayloadOverrunStalls(o.session, o.cache, chunks);
  }

  /** `set <key> 0` waits for a payload that no non-empty receive can complete (Program.cs:242). */
  lemma EmptyValueStalls(s: SessionState, c: Cache, key: string, chunks: seq<string>)
    requires AtLineStart(s) && ' ' !in key && NonEmpty(chunks)
    ensures Run(s, c, [Line(["set", key, NatToString(0)])] + chunks).replies == []
  {
    var line := Line(["set", key, NatToString(0)]);
    SetAccepted(s, c, key, 0);
    RunSingle(s, c, line);
    var o := Transition(s, c, line);
    RunAppend(s, c, [line], chunks);
    PayloadOverrunStalls(o.session, o.cache, chunks);
  }

  /**
    The round trip: `set <key> <n>`, then a value of n characters in any
    number of pieces, then `get <key>`. The replies are OK and then the value
    itself, the store holds the value under the key, and the connection is
    ready for the next request line.
   */
  lemma RoundTrip(s: SessionState, c: Cache, key: string, value: string, pieces: seq<string>)
    requires AtLineStart(s) && GetKey(key)
    requires 0 < |value| <= MaxValueBytes && NonEmpty(pieces) && Concat(pieces) == value
    ensures var t := Run(s, c, [Line(["set", key, NatToString(|value|)])] + (pieces + [Line(["get", key])]));
      && t.replies == ["OK\r\n", "OK " + NatToString(|value|) + "\r\n" + value]
      && AtLineStart(t.session)
      && t.cache == Committed(Evicted(c, |value|), key, value)
  {
    var setLine := Line(["set", key, NatToString(|value|)]);
    var p := SessionState([], |value|, key, ReadingPayload);
    var e := Evicted(c, |value|);
    SetAccepted(s, c, key, |value|);
    var t := PayloadThenGet(p, e, value, pieces);
    FeedFirst(Transition, s, c, setLine, pieces + [Line(["get", key])], Outcome(p, e, None), t);
  }

  /**
    The round trip fails for a key written with a leading tab. `set` stores
    the key untrimmed (Program.cs:193) but `get` trims it (Program.cs:153),
    so `set \t<key> <n>`, the payload, then `get \t<key>` are answered with
    OK and then MISSING, when the store has room and does not hold `<key>`.
   */
  lemma WhiteKeyMissed(s: SessionState, c: Cache, key: string, value: string, pieces: seq<string>)
    requires AtLineStart(s) && GetKey(key) && key !in c.values
    requires 0 < |value| <= MaxValueBytes && c.used + |value| <= MaxValueBytes && NonEmpty(pieces) && Concat(pieces) == value
    ensures Run(s, c, [Line(["set", "\t" + key, NatToString(|value|)])] + (pieces + [Line(["get", "\t" + key])])).replies
      == [StoredReply, MissingReply]
  {
    var stored := "\t" + key;
    var setLine := Line(["set", stored, NatToString(|value|)]);
    var p := SessionState([], |value|, stored, ReadingPayload);
    var e := Evicted(c, |value|);
    SpaceFreeAfterTab(key);
    SetAccepted(s, c, stored, |value|);
    var t := PayloadThenMiss(p, e, key, value, pieces);
    FeedFirst(Transition, s, c, setLine, pieces + [Line(["get", stored])], Outcome(p, e, None), t);
  }

  /** The payload under the tab-prefixed key is stored and acknowledged, and the `get` that follows misses. */
  lemma PayloadThenMiss(p: SessionState, e: Cache, key: string, value: string, pieces: seq<string>) returns (t: Trace)
    requires p.mode == ReadingPayload && p.sb == [] && p.setBufferSize == |value| && p.setKey == "\t" + key
    requires GetKey(key) && key !in e.values
    requires 0 < |value| && NonEmpty(pieces) && Concat(pieces) == value
    ensures t.replies == [StoredReply, MissingReply]
    ensures Run(p, e, pieces + [Line(["get", p.setKey])]) == t
  {
    var q := p.(sb := [], mode := ReadingCommand);
    var d := Committed(e, p.setKey, value);
    assert p.sb + Concat(pieces) == value;
    PayloadInPieces(p, e, pieces);
    CommittedThenMiss(q, e, key, value);
    FeedLast(Transition, p, e, pieces, Line(["get", p.setKey]), Trace(q, d, [StoredReply]), Outcome(q, d, Some(MissingReply)));
    t := Trace(q, d, [StoredReply, MissingReply]);
    assert [StoredReply] + [MissingReply] == [StoredReply, MissingReply];
  }

  /** The second half of the round trip: the payload is stored, acknowledged, and read back. */
  lemma PayloadThenGet(p: SessionState, e: Cache, value: string, pieces: seq<string>) returns (t: Trace)
    requires p.mode == ReadingPayload && p.sb == [] && p.setBufferSize == |value|
    requires GetKey(p.setKey)
    requires 0 < |value| && NonEmpty(pieces) && Concat(pieces) == value
    ensures t == Trace(p.(sb := [], mode := ReadingCommand), Committed(e, p.setKey, value), [StoredReply, HitReply(value)])
    ensures Run(p, e, pieces + [Line(["get", p.setKey])]) == t
  {
    var q := p.(sb := [], mode := ReadingCommand);
    var d := Committed(e, p.setKey, value);
    assert p.sb + Concat(pieces) == value;
    PayloadInPieces(p, e, pieces);
    CommittedThenHit(q, e, p.setKey, value);
    FeedLast(Transition, p, e, pieces, Line(["get", p.setKey]), Trace(q, d, [StoredReply]), Outcome(q, d, Some(HitReply(value))));
    t := Trace(q, d, [StoredReply, HitReply(value)]);
    assert [StoredReply] + [HitReply(value)] == [StoredReply, HitReply(value)];
  }

  /** Right after a commit, a `get` of the committed key replies with the value. */
  lemma CommittedThenHit(q: SessionState, e: Cache, key: string, value: string)
    requires AtLineStart(q) && GetKey(key)
    ensures var d := Committed(e, key, value);
      Transition(q, d, Line(["get", key])) == Outcome(q, d, Some(HitReply(value)))
  {
    CommittedFinds(e, key, value);
    GetHit(q, Committed(e, key, value), key, value);
  }

  /** Right after a commit under the tab-prefixed key, a `get` of that key misses when the bare key is absent. */
  lemma CommittedThenMiss(q: SessionState, e: Cache, key: string, value: string)
    requires AtLineStart(q) && GetKey(key) && key !in e.values
    ensures var d := Committed(e, "\t" + key, value);
      Transition(q, d, Line(["get", "\t" + key])) == Outcome(q, d, Some(MissingReply))
  {
    var d := Committed(e, "\t" + key, value);
    CommittedFinds(e, "\t" + key, value);
    assert key != "\t" + key;
    WhiteKeyGet(key);
    WordsAnswered(q, d, ["get", "\t" + key], Get(key), MissingReply);
  }

  /** A `get` of a stored key at the start of a line replies with the value and changes nothing. */
  lemma GetHit(q: SessionState, d: Cache, key: string, value: string)
    requires AtLineStart(q) && GetKey(key) && Find(d, key) == Some(value)
    ensures Transition(q, d, Line(["get", key])) == Outcome(q, d, Some(HitReply(value)))
  {
    ParseGet(key);
    WordsAnswered(q, d, ["get", key], Get(key), HitReply(value));
  }
}
