/**
  The request codec of HandleRequest (Program.cs:134-222): how a request
  line is cut into tokens and classified, and the exact reply texts.
 */
module Protocol {
  import opened Wrappers
  import opened Text
  import Storage

  /** What HandleRequest makes of a request line. */
  datatype Request =
    | Get(key: string)             // `get <key>`: look the key up
    | GetUsage                     // `get` with a token count other than 2
    | Set(key: string, size: int)  // `set <key> <size>` that passed validation: wait for the payload
    | SetUsage                     // `set` with a token count other than 3
    | SizeNotNumber(token: string) // the size token is not a 32-bit integer
    | SizeTooLarge                 // the size exceeds MAX_VALUE_BYTES
    | Unknown                      // any other first token

  /** content.Trim().Split(' ') (Program.cs:140). */
  function Tokens(content: string): (r: seq<string>)
    ensures |r| >= 1
  {
    Split(Trim(content), ' ')
  }

  /**
    The classification of Program.cs:140-193. The `get` key is trimmed
    (line 153); the `set` key is not (line 193); the size token is trimmed for
    parsing (line 179) but reported untrimmed (line 182). A validated size
    fits the budget but may be negative.
   */
  function ParseRequest(content: string): (r: Request)
    ensures r.Set? ==> Int32Min <= r.size <= Storage.MaxValueBytes
    ensures r.Get? ==> r.key == Trim(r.key)
  {
    var request := Tokens(content);
    if request[0] == "get" then
      if |request| != 2 then GetUsage else Get(Trim(request[1]))
    else if request[0] == "set" then
      if |request| != 3 then SetUsage
      else
        match TryParseInt32(Trim(request[2]))
        case None => SizeNotNumber(request[2])
        case Some(size) => if size > Storage.MaxValueBytes then SizeTooLarge else Set(request[1], size)
    else Unknown
  }

  const StoredReply: string := "OK\r\n"
  const MissingReply: string := "MISSING\r\n"
  const GetUsageReply: string := "Error: Usage - get <key>\r\n"
  const SetUsageReply: string := "Error: Usage - set <key> <size>\r\n"
  const UnknownReply: string := "Unknown request received\r\n"
  const SizeTooLargeReply: string := "Error: Size has to be less than " + NatToString(Storage.MaxValueBytes) + "\r\n"

  function SizeNotNumberReply(token: string): string {
    "Error: Size has to be a number (Received: " + token + ")\r\n"
  }

  /** The reply to a `get` that finds its key: "OK", the value's length, "\r\n", then the value itself (Program.cs:158). */
  function HitReply(value: string): string {
    "OK " + NatToString(|value|) + "\r\n" + value
  }

  /** The budget appears in the too-large reply as 128000000. */
  lemma SizeTooLargeReplyText()
    ensures SizeTooLargeReply == "Error: Size has to be less than " + "128000000" + "\r\n"
  {
    BudgetDigits();
  }

  /** MAX_VALUE_BYTES in decimal. */
  lemma BudgetDigits()
    ensures NatToString(Storage.MaxValueBytes) == "128000000"
  {
    assert NatToString(128) == "128";
    NatToStringTimesTen(128);
    NatToStringTimesTen(1280);
    NatToStringTimesTen(12800);
    NatToStringTimesTen(128000);
    NatToStringTimesTen(1280000);
    NatToStringTimesTen(12800000);
  }

  /**
    How a client reads the reply to a `get`: the header up to the first
    "\r\n" is either "MISSING" (Some(None)) or "OK <n>", after which exactly
    n characters are the value (Some(Some(value))); anything else is None.
   */
  function ReadGetReply(reply: string): Option<Option<string>> {
    var end := IndexOfCrLf(reply);
    if end < 0 then None
    else
      var header := reply[..end];
      var rest := reply[end + 2..];
      if header == "MISSING" then (if rest == [] then Some(None) else None)
      else if |header| > 3 && header[..3] == "OK " && AllDigits(header[3..]) then
        var n := DigitsValue(header[3..]);
        if |rest| == n then Some(Some(rest)) else None
      else None
  }

  /** A client reading a hit reply gets the stored value back, whatever characters it holds. */
  lemma ReadHitReply(value: string)
    ensures ReadGetReply(HitReply(value)) == Some(Some(value))
  {
    var digits := NatToString(|value|);
    var header := "OK " + digits;
    NatToStringDigits(|value|);
    forall i | 0 <= i < |header|
      ensures header[i] != '\r'
    {
      assert i >= 3 ==> header[i] == digits[i - 3];
    }
    FirstCrLfAfter(header, value);
    assert HitReply(value) == header + "\r\n" + value;
    assert header[..3] == "OK " && header[3..] == digits;
  }

  /** A client reading the miss reply learns that the key is absent. */
  lemma ReadMissingReply()
    ensures ReadGetReply(MissingReply) == Some(None)
  {
    FirstCrLfAfter("MISSING", []);
    assert MissingReply == "MISSING" + "\r\n" + [];
  }

  /** In a header without '\r' followed by "\r\n", the first "\r\n" is the one after the header. */
  lemma FirstCrLfAfter(header: string, rest: string)
    requires forall i :: 0 <= i < |header| ==> header[i] != '\r'
    ensures var reply := header + "\r\n" + rest;
      && IndexOfCrLf(reply) == |header|
      && reply[..|header|] == header
      && reply[|header| + 2..] == rest
  {
    var reply := header + "\r\n" + rest;
    assert HasCrLfAt(reply, |header|);
    forall i | 0 <= i < |header|
      ensures !HasCrLfAt(reply, i)
    {
      assert reply[i] == header[i];
    }
  }

  /** A request line as a client writes it: the words separated by single spaces, then "\r\n". */
  function Line(words: seq<string>): string {
    Join(words, ' ') + "\r\n"
  }

  /**
    Words without a space in them, making a line that neither starts nor ends
    with white space: the first word is non-empty and starts with a non-white
    character, the last is non-empty and ends with one. Other white space,
    such as a tab inside a word, is allowed.
   */
  predicate PlainWords(words: seq<string>) {
    && |words| >= 1
    && |words[0]| > 0 && !IsWhiteSpace(words[0][0])
    && |words[|words| - 1]| > 0 && !IsWhiteSpace(words[|words| - 1][|words[|words| - 1]| - 1])
    && forall i :: 0 <= i < |words| ==> ' ' !in words[i]
  }

  /**
    A key that `get` finds under its own name: non-empty, without a space, and
    left as it is by the Trim of Program.cs:153, so neither starting nor
    ending with white space.
   */
  predicate GetKey(key: string) {
    |key| > 0 && ' ' !in key && Trim(key) == key
  }

  lemma NoSpaceIn(w: string)
    requires NoWhiteSpace(w)
    ensures ' ' !in w
  {
  }

  /** Trimming and splitting a request line gives back the words it was written from. */
  lemma TokensOfLine(words: seq<string>)
    requires PlainWords(words)
    ensures Tokens(Line(words)) == words
  {
    var joined := Join(words, ' ');
    JoinEnds(words, ' ');
    TrimLine(joined);
    SplitJoin(words, ' ');
  }

  lemma SetLineTokens(key: string, token: string)
    requires ' ' !in key && |token| > 0 && NoWhiteSpace(token)
    ensures Tokens(Line(["set", key, token])) == ["set", key, token]
  {
    NoSpaceIn(token);
    TokensOfLine(["set", key, token]);
  }

  /** `get <key>` for a key that Trim leaves alone is a lookup of that very key (Program.cs:153). */
  lemma ParseGet(key: string)
    requires GetKey(key)
    ensures ParseRequest(Line(["get", key])) == Get(key)
  {
    TokensOfLine(["get", key]);
  }

  /**
    The two sides of a key written with a leading tab: `set` keeps the key as
    it is written (Program.cs:193), `get` looks it up without the tab
    (Program.cs:153).
   */
  lemma WhiteKeyParses(key: string, size: nat)
    requires GetKey(key) && size <= Storage.MaxValueBytes
    ensures ParseRequest(Line(["set", "\t" + key, NatToString(size)])) == Set("\t" + key, size)
    ensures ParseRequest(Line(["get", "\t" + key])) == Get(key)
  {
    SpaceFreeAfterTab(key);
    ParseSet("\t" + key, size);
    WhiteKeyGet(key);
  }

  lemma WhiteKeyGet(key: string)
    requires GetKey(key)
    ensures ParseRequest(Line(["get", "\t" + key])) == Get(key)
  {
    var stored := "\t" + key;
    SpaceFreeAfterTab(key);
    assert stored[|stored| - 1] == key[|key| - 1];
    assert PlainWords(["get", stored]);
    TokensOfLine(["get", stored]);
    TrimLeadingTab(key);
  }

  lemma SpaceFreeAfterTab(key: string)
    requires ' ' !in key
    ensures ' ' !in "\t" + key
  {
    var stored := "\t" + key;
    assert forall i :: 1 <= i < |stored| ==> stored[i] == key[i - 1];
  }

  /** `get` with a token count other than 2 is a usage error (Program.cs:146-150). */
  lemma ParseGetWrongCount(words: seq<string>)
    requires PlainWords(words) && words[0] == "get" && |words| != 2
    ensures ParseRequest(Line(words)) == GetUsage
  {
    TokensOfLine(words);
  }

  /** `set <key> <size>` with a size within the budget is accepted with that key and size (Program.cs:173-193). */
  lemma ParseSet(key: string, size: nat)
    requires ' ' !in key && size <= Storage.MaxValueBytes
    ensures ParseRequest(Line(["set", key, NatToString(size)])) == Set(key, size)
  {
    NatToStringNoWhiteSpace(size);
    SetLineTokens(key, NatToString(size));
    ParseNatToString(size);
  }

  /** A size followed by a NUL character is accepted as the size alone (Program.cs:179). */
  lemma ParseSetTrailingNul(key: string, size: nat)
    requires ' ' !in key && size <= Storage.MaxValueBytes
    ensures ParseRequest(Line(["set", key, NatToString(size) + "\0"])) == Set(key, size)
  {
    ParseNulToken(size);
    SetLineTokens(key, NatToString(size) + "\0");
  }

  /** A negative size passes validation (Program.cs:179-191). */
  lemma ParseSetNegative(key: string, n: nat)
    requires ' ' !in key && 0 < n <= -Int32Min
    ensures ParseRequest(Line(["set", key, "-" + NatToString(n)])) == Set(key, -(n as int))
  {
    var token := "-" + NatToString(n);
    NatToStringNoWhiteSpace(n);
    assert token[1..] == NatToString(n);
    assert NoWhiteSpace(token);
    SetLineTokens(key, token);
    ParseNegated(n);
  }

  /** `set` with a token count other than 3 is a usage error (Program.cs:173-178). */
  lemma ParseSetWrongCount(words: seq<string>)
    requires PlainWords(words) && words[0] == "set" && |words| != 3
    ensures ParseRequest(Line(words)) == SetUsage
  {
    TokensOfLine(words);
  }

  /** A size token that is not a 32-bit integer is reported as such (Program.cs:179-184). */
  lemma ParseSetNotNumber(key: string, token: string)
    requires ' ' !in key && |token| > 0 && NoWhiteSpace(token)
    requires TryParseInt32(token) == None
    ensures ParseRequest(Line(["set", key, token])) == SizeNotNumber(token)
  {
    SetLineTokens(key, token);
  }

  /**
    A size beyond the 32-bit range, such as 999999999999, fails int.TryParse
    and is reported as not a number, not as too large (Program.cs:179).
   */
  lemma ParseSetOverflow(key: string, size: nat)
    requires ' ' !in key && size > Int32Max
    ensures ParseRequest(Line(["set", key, NatToString(size)])) == SizeNotNumber(NatToString(size))
  {
    NatToStringNoWhiteSpace(size);
    ParseNatToStringOverflow(size);
    ParseSetNotNumber(key, NatToString(size));
  }

  /** A size above the budget that is still a 32-bit integer is too large (Program.cs:186-191). */
  lemma ParseSetTooLarge(key: string, size: nat)
    requires ' ' !in key && Storage.MaxValueBytes < size <= Int32Max
    ensures ParseRequest(Line(["set", key, NatToString(size)])) == SizeTooLarge
  {
    NatToStringNoWhiteSpace(size);
    SetLineTokens(key, NatToString(size));
    ParseNatToString(size);
  }

  /** Any other first word is an unknown request (Program.cs:217-221). */
  lemma ParseUnknown(words: seq<string>)
    requires PlainWords(words) && words[0] != "get" && words[0] != "set"
    ensures ParseRequest(Line(words)) == Unknown
  {
    TokensOfLine(words);
  }
}
