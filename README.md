# A verified model of the TCP key-value cache in app/Program.cs

The program is a small in-memory cache served over TCP. A client sends
`get <key>\r\n` or `set <key> <size>\r\n`; a `set` line is followed by exactly
`size` characters of payload. Values live in one insertion-ordered dictionary
whose total value length is kept in a counter, bounded by `MAX_VALUE_BYTES`
(128000000). Before a value is stored, the oldest keys are evicted until it
fits.

The model has three parts, following the three concerns in the C# file:

- **Storage** (`storage.dfy`): the store as a value, `Cache` (key order, map,
  counter), with the specification functions `Evicted` (the eviction loop) and
  `Committed` (the commit of a payload). The class `Store` holds the same three
  fields and updates them in place. Its `Evict` method is the `while` loop of the
  source and is proved against `Evicted`; its `Commit` method is proved against
  `Committed`. The invariant `Consistent` says three things: each key appears once
  in the order, the order and the map hold the same keys, and the counter is the
  sum of the stored lengths.
- **Text and protocol** (`text.dfy`, `protocol.dfy`): the .NET primitives the
  request handler relies on, as pure functions. These are `String.Trim`,
  `String.Split(' ')`, the search for `"\r\n"`, `int.TryParse` and the decimal
  rendering of a length. On top of them sit the classification of a request line
  (`ParseRequest`) and every reply text.
- **Session** (`session.dfy`, `session_properties.dfy`): the per-connection state
  machine of `ReadCallback`, `HandleRequest`, `SetCallback` and `ReceiveNewInput`.
  The value function `Transition` takes one completed receive (a chunk of text).
  The class `Connection` holds the `StateObject` fields it updates, and its methods
  are proved to compute exactly `Transition`. `Run` feeds a sequence of chunks.
  The framing, invariant, reply and round-trip lemmas are stated over `Run`.

The commit at app/Program.cs:245 adds the new length without subtracting the
replaced one. The model stores the corrected commit and keeps the as-written one
beside it, with the counterexample (see "## Findings"). Elsewhere the model
follows the code even where its behaviour is surprising:

- a size beyond 32 bits such as `999999999999` gets the "has to be a number"
  error, not the "has to be less than" one, because `int.TryParse` fails
  before the budget check;
- negative sizes pass validation;
- eviction neither skips the key being set nor credits its old length;
- the `get` key is trimmed (line 153) but the `set` key is not (line 193). A
  key written with leading white space other than a space, such as `\tk`, is
  stored as `\tk` and looked up as `k`, so the round trip misses it
  (`WhiteKeyMissed`). The round-trip lemmas hold for exactly the keys that
  `Trim` leaves alone and that contain no space (`GetKey`).

Strings are `seq<char>`, and every length is the number of characters, which
is what `String.Length` counts as long as no character lies outside the Basic
Multilingual Plane (see "## Left out").

## Model

| member | source | states |
|---|---|---|
| Storage.Find | app/Program.cs:154-158 | the specification of `storage.Contains(key)` and `storage[key]`: the stored value when the key is present and nothing otherwise; `Store.Lookup` is proved equal to it |
| Storage.DropOldest | app/Program.cs:199-203 | the specification of one pass of the eviction loop: the first key in insertion order leaves both the order and the map, and its length leaves the counter; `EvictedRemovesPrefix` states what a run of passes removes |
| Storage.Evicted | app/Program.cs:197-205 | eviction never adds a key, and when the counter plus the size already fits the budget the store is returned unchanged |
| Storage.EvictedConsistent | app/Program.cs:197-205 | eviction keeps the store's invariant (distinct keys, same keys in order and map, counter equals the sum of lengths) |
| Storage.EvictedFits | app/Program.cs:197 | for a consistent store and a size within the budget, the loop ends with counter + size <= MAX_VALUE_BYTES |
| Storage.EvictedRemovesPrefix | app/Program.cs:199-203 | what eviction removes is a prefix of the insertion order: the survivors are the rest of the order in the same order, every surviving entry keeps its value, removed keys leave the map, and the counter drops by exactly the removed lengths |
| Storage.EvictedIsMinimal | app/Program.cs:197-205 | eviction removes no more keys than needed: keeping the last key it removed would still leave too little room |
| Storage.Committed | app/Program.cs:244-245 | the specification of the corrected commit: the map maps the key to the payload, a fresh key is appended to the order, and the counter moves by the new length minus the replaced one; its properties are `CommittedConsistent` and `CommittedFinds` |
| Storage.CommittedAsWritten | app/Program.cs:245 | the specification of the commit as written: the same order and map as `Committed`, but the counter always gains the full new length; `AsWrittenAgreesOnFreshKeys` and `AsWrittenDrifts` compare it with `Committed` |
| Storage.CommittedConsistent | app/Program.cs:244-245 | the corrected commit keeps the invariant; the counter moves by the new length minus the replaced length; a replaced key keeps its place and a fresh key is appended last |
| Storage.CommittedFinds | app/Program.cs:244 | after the commit the key finds the committed value and every other key finds what it found before |
| Storage.AsWrittenAgreesOnFreshKeys | app/Program.cs:244-245 | for a key not yet present the commit as written equals the corrected commit |
| Storage.AsWrittenDrifts | app/Program.cs:245 | committing v under k in an empty store is consistent, but committing w under k afterwards, as written, breaks the sum invariant |
| Storage.NoEvictionBeforeDrift | app/Program.cs:197-205 | when the two values fit the budget, neither eviction before those two commits removes anything, so the drift happens in a real session |
| Storage.AsWrittenEvictionNeverEnds | app/Program.cs:197-205 | after the drift, a `set` of the whole budget removes every key and the loop condition still holds, so the `while` never ends |
| Storage.Store.constructor | app/Program.cs:34-39 | the process starts with an empty, consistent store |
| Storage.Store.Lookup | app/Program.cs:154-158 | a lookup finds a value exactly when the key is in the insertion order, and the value is the stored one |
| Storage.Store.Evict | app/Program.cs:197-205 | the loop leaves the store as `Evicted` describes, consistent and with room for the size |
| Storage.Store.Commit | app/Program.cs:244-245 | the store afterwards is `Committed` applied to the old store, and it stays consistent |
| Text.Trim | app/Program.cs:140 | the result is the text with a run of leading and a run of trailing white space removed and nothing else; it neither starts nor ends with white space, and text without white space is left as it is |
| Text.TrimStrips | app/Program.cs:140 | `TrimEnd(TrimStart(s))` sits in `s` right after the leading white space, and only white space follows it |
| Text.TrimLine | app/Program.cs:140 | trimming a line whose ends are not white space removes exactly the trailing "\r\n" |
| Text.Split | app/Program.cs:140 | splitting gives at least one piece, no piece contains the separator, and joining the pieces with it gives the text back |
| Text.SplitJoin | app/Program.cs:140 | splitting undoes joining for tokens that do not contain the separator |
| Text.IndexOfCrLf | app/Program.cs:117 | the result is -1 exactly when there is no "\r\n", and otherwise the position of the first one |
| Text.CrLfStaysFound | app/Program.cs:114-117 | a "\r\n" already in the buffer is still found after more text is appended |
| Text.TryParseInt32 | app/Program.cs:179 | a successful parse is a 32-bit value, and the text starts with a digit or a sign |
| Text.ParseTrailingNul | app/Program.cs:179 | NUL characters after the digits are accepted and ignored, as Int32.TryParse does |
| Text.NatToString | app/Program.cs:158 | the decimal rendering of a length is never empty; `NatToStringDigits` and `ParseNatToString` state what it denotes |
| Text.NatToStringDigits | app/Program.cs:158 | a rendered length is all digits, has no leading zero and denotes the length |
| Text.ParseNatToString | app/Program.cs:179 | parsing the rendering of a 32-bit value gives the value back |
| Text.ParseNatToStringOverflow | app/Program.cs:179 | a well-formed number beyond the 32-bit range is refused |
| Text.ParseNegated | app/Program.cs:179 | a minus sign before a rendered value parses as its negation |
| Protocol.Tokens | app/Program.cs:140 | a request line gives at least one token |
| Protocol.ParseRequest | app/Program.cs:140-193 | an accepted `set` has a 32-bit size no larger than the budget, and a `get` key is trimmed |
| Protocol.TokensOfLine | app/Program.cs:140 | trimming and splitting a line gives back the words it was written from when no word holds a space and the line neither starts nor ends with white space |
| Protocol.ParseGet | app/Program.cs:142-153 | `get <key>` is a lookup of that very key for every key without a space that `Trim` leaves alone |
| Protocol.WhiteKeyParses | app/Program.cs:153-193 | `set \t<key> <n>` is accepted under the key `\t<key>` while `get \t<key>` looks up `<key>` |
| Protocol.ParseGetWrongCount | app/Program.cs:146-150 | `get` with a word count other than 2 is the get usage error |
| Protocol.ParseSet | app/Program.cs:173-193 | `set <key> <n>` with n within the budget is accepted with that key and size |
| Protocol.ParseSetTrailingNul | app/Program.cs:179-193 | `set <key> <n>` followed by a NUL character is accepted with size n, because `Trim` keeps the NUL and `int.TryParse` ignores it |
| Protocol.ParseSetNegative | app/Program.cs:179-191 | `set <key> -<n>` is accepted with the negative size |
| Protocol.ParseSetWrongCount | app/Program.cs:173-178 | `set` with a word count other than 3 is the set usage error |
| Protocol.ParseSetNotNumber | app/Program.cs:179-184 | a size token that does not parse is reported with the token itself |
| Protocol.ParseSetOverflow | app/Program.cs:179-184 | a size beyond 32 bits is reported as not a number, not as too large |
| Protocol.ParseSetTooLarge | app/Program.cs:186-191 | a 32-bit size above the budget is reported as too large |
| Protocol.ParseUnknown | app/Program.cs:217-221 | any other first word is an unknown request |
| Protocol.BudgetDigits | app/Program.cs:34 | MAX_VALUE_BYTES renders as 128000000 |
| Protocol.SizeTooLargeReplyText | app/Program.cs:189 | the too-large reply is exactly "Error: Size has to be less than 128000000\r\n" |
| Protocol.HitReply | app/Program.cs:158 | the text of a hit, "OK <length>\r\n" then the value; `ReadHitReply` shows that a client recovers the value from it |
| Protocol.ReadHitReply | app/Program.cs:158 | a client reading "OK <len>\r\n<value>" gets back exactly the value, whatever characters it holds |
| Protocol.ReadMissingReply | app/Program.cs:164 | a client reading "MISSING\r\n" learns that the key is absent |
| Session.Dispatch | app/Program.cs:142-221 | a reply is sent exactly when the request is not a valid `set`; a reply leaves the store as it was and returns to command mode with an empty buffer; a valid `set` waits for the payload with an empty buffer and its key and size remembered |
| Session.ImmediateReply | app/Program.cs:146-221 | the specification of every reply HandleRequest sends at once: the hit or miss text of a `get` from the store, and the fixed usage, size and unknown-request texts; `ReplyText` is proved equal to it and the SessionProperties lemmas fix each text |
| Session.Transition | app/Program.cs:112-253 | after any reply the buffer is empty and a request line is read next; entering payload mode starts with an empty buffer; a receive that neither replies nor changes mode leaves the store alone; nothing happens after a zero-byte read |
| Session.CommandCompleted | app/Program.cs:114-119 | the receive that completes "\r\n" hands the whole accumulated buffer to HandleRequest |
| Session.CommandPending | app/Program.cs:114-125 | a receive that leaves the buffer without "\r\n" only appends to it |
| Session.Connection.constructor | app/Program.cs:91-95 | a new connection reads a request line with an empty buffer |
| Session.Connection.ReceiveNewInput | app/Program.cs:296-304 | the buffer is cleared and a request line is read next; the key and the size are kept |
| Session.Connection.HandleRequest | app/Program.cs:134-222 | the connection and the store end as `Dispatch` of the classified line says, and the store stays consistent |
| Session.Connection.Answer | app/Program.cs:142-221 | the branches of HandleRequest end as `Dispatch` says for the classified request |
| Session.Connection.AwaitPayload | app/Program.cs:193-213 | an accepted `set` evicts as `Evicted` says, leaves room for the size, and waits for the payload with an empty buffer and the key and size remembered |
| Session.Connection.ReplyText | app/Program.cs:146-191 | the immediate reply is the one `ImmediateReply` gives for the current store |
| Session.Connection.ReadCallback | app/Program.cs:98-132 | one receive in command mode ends as `Transition` says, and the store stays consistent |
| Session.Connection.SetCallback | app/Program.cs:224-260 | one receive in payload mode ends as `Transition` says, and the store stays consistent |
| Session.Connection.Step | app/Program.cs:94-303 | a receive is handled by the callback that is pending and ends as `Transition` says |
| SessionProperties.TransitionKeepsCoupled | app/Program.cs:197-245 | one receive keeps the store consistent and within the budget, with room for an awaited payload |
| SessionProperties.RunKeepsCoupled | app/Program.cs:197-245 | any sequence of receives keeps the counter equal to the sum of stored lengths and no larger than MAX_VALUE_BYTES |
| SessionProperties.AcceptedCoupled | app/Program.cs:35-39 | a new connection on the initial store satisfies that invariant |
| SessionProperties.CommandAccumulates | app/Program.cs:114-125 | in command mode, pieces without "\r\n" only accumulate: nothing is dispatched, replied or stored |
| SessionProperties.CommandInPieces | app/Program.cs:114-125 | a request line cut into any pieces is handled once, on the whole buffer, when its last piece arrives |
| SessionProperties.PayloadAccumulates | app/Program.cs:239-253 | in payload mode, input shorter than the expected size only accumulates: nothing is stored or replied |
| SessionProperties.PayloadInPieces | app/Program.cs:239-247 | a payload cut into any pieces is committed under the remembered key when its length reaches the size; the reply is OK and the buffer is empty again |
| SessionProperties.PayloadOverrunStalls | app/Program.cs:242-253 | once the buffer is at least the expected size, no later receive replies or stores anything |
| SessionProperties.GetRequest | app/Program.cs:153-165 | for every key without a space that `Trim` leaves alone, `get <key>` replies "OK <len>\r\n" then the value when the key is present, and exactly "MISSING\r\n" otherwise; the session and the store are unchanged |
| SessionProperties.GetHit | app/Program.cs:153-159 | a `get` of a stored key without a space that `Trim` leaves alone replies with the value and changes nothing |
| SessionProperties.GetWrongCount | app/Program.cs:146-150 | `get` with a count other than 2 replies exactly "Error: Usage - get <key>\r\n" and changes nothing |
| SessionProperties.SetWrongCount | app/Program.cs:173-178 | `set` with a count other than 3 replies exactly "Error: Usage - set <key> <size>\r\n" and changes nothing |
| SessionProperties.SetNotNumber | app/Program.cs:179-184 | a size that does not parse is echoed in "Error: Size has to be a number (Received: <tok>)\r\n" and nothing changes |
| SessionProperties.SetOverflow | app/Program.cs:179-184 | a size beyond 32 bits gets the not-a-number reply and nothing changes |
| SessionProperties.SetTooLarge | app/Program.cs:186-191 | a 32-bit size above the budget replies exactly "Error: Size has to be less than 128000000\r\n" and nothing changes |
| SessionProperties.UnknownRequest | app/Program.cs:217-221 | any other first word replies exactly "Unknown request received\r\n" and nothing changes |
| SessionProperties.SetAccepted | app/Program.cs:193-213 | an accepted `set` sends no reply, evicts as `Evicted` says, and waits with an empty buffer for `size` characters under the key |
| SessionProperties.NegativeSizeStalls | app/Program.cs:186-213 | after `set <key> -<n>` the connection never replies again, whatever is sent |
| SessionProperties.EmptyValueStalls | app/Program.cs:242 | after `set <key> 0` no non-empty receive completes the payload and the connection never replies again |
| SessionProperties.PayloadThenGet | app/Program.cs:242-247 | a payload in any pieces, then `get` of its key, replies OK and then the value, and the store holds the payload |
| SessionProperties.RoundTrip | app/Program.cs:142-247 | `set k n`, n characters in any pieces, then `get k` reply "OK\r\n" and then "OK n\r\n" followed by the value; the connection is back at a line start and the store is the commit after the eviction; this holds for every non-empty key without a space that `Trim` leaves alone |
| SessionProperties.WhiteKeyMissed | app/Program.cs:153-193 | for a key written with a leading tab on a store with room that lacks the bare key, `set`, the payload in any pieces, then `get` reply "OK\r\n" and then "MISSING\r\n" |

## Left out

- The listener, the accept loop, `Send`, `SendCallback` and `BeginReceive`/`EndReceive` are left out. They are socket plumbing; each completed receive is a parameter of `Transition`.
- Concurrency and interleaving between connections on the shared store are left out. The model has one connection per run. The budget bound of `RunKeepsCoupled` therefore holds per connection only. In the source two connections can both be accepted before either commits. With the counter at 127999000, `set a 1000` on one connection and `set b 1000` on another each evict nothing, and the two payloads then leave the counter at 128001000, above the budget, even with the corrected commit.
- UTF-8 decoding and encoding are left out. Chunks and values are sequences of characters.
- Surrogate pairs are left out. A Dafny `char` is a Unicode scalar value, while `String.Length` counts UTF-16 code units, so a character outside the Basic Multilingual Plane counts 1 here and 2 in the source. For payloads holding such characters the model disagrees with the source: at line 242 on when the payload is complete, at line 158 on the length in the hit reply, and at lines 201 and 245 on the counter. All lemmas hold for `seq<char>` lengths only.
- The 1024-byte receive buffer is left out, and so is the `ArgumentOutOfRangeException` that `BeginReceive` at line 213 raises when the size is negative or larger than the buffer. The handler at line 128 catches only `SocketException`, so in the source every accepted `set` with a size above 1024 or below 0 ends in that exception instead of waiting for a payload. `RoundTrip`, `PayloadThenGet`, `PayloadInPieces` and `SetAccepted` therefore describe the source only for sizes from 1 to 1024, and `NegativeSizeStalls` only says that no reply ever comes. A chunk has any length.
- `String.IndexOf("\r\n")` is modelled as an ordinal search, not a culture-sensitive one.
- `int.TryParse` is modelled on text that has already been trimmed: an optional `+` or `-`, decimal digits, a value that fits in 32 bits, then optional ASCII white space followed by NUL characters. Culture-specific signs are left out.
- `SocketException` handling and all `Console.WriteLine` logging are left out. A zero-byte read ends the session (`Ended`); a failed read is not distinguished from it.
- Storage.Evicted: stops when no key is left, where the loop at app/Program.cs:197 would spin forever. Under the store's invariant the two agree (`EvictedFits`); `AsWrittenEvictionNeverEnds` exhibits the as-written state where they do not.
- Storage.Store.Commit: subtracts the replaced value's length, which app/Program.cs:245 does not (see "## Findings").
- Storage.Store: its `Valid` is `Consistent` (distinct keys, the same keys in the order and the map, the counter equal to the sum of the lengths); it does not include the budget bound. The bound `counter <= MAX_VALUE_BYTES` holds because eviction runs before every commit, so it is stated as the session invariant `Coupled` (`RunKeepsCoupled`).
- Text after the first "\r\n" in the same receive is not split off. As in the source, the whole buffer is trimmed and split as one request; no lemma covers pipelined requests.
- `Feed` and `Run` model the chain of callbacks as a fold over the chunks a client delivers.

## Findings

| source | as written | input that shows it | evidently intended | confidence | as-written member | corrected member |
|---|---|---|---|---|---|---|
| app/Program.cs:245 | `currentValueBytes += state.setBufferSize` also when `setKey` is already stored, so the replaced value's length is never subtracted | `set k 1` with payload `a`, then `set k 1` with payload `b`: only `b` is stored but the counter is 2; after that a `set x 128000000` evicts `k` and the loop at line 197 keeps running with an empty store | the counter loses the replaced value's length, so it stays the sum of the stored lengths | not executed | Storage.CommittedAsWritten | Storage.CommittedConsistent |
