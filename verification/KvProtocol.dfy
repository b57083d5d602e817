/** The text protocol of the key-value store: a command is words between spaces, a reply is a
    bare string.  The server runs commands on the hash engine; the client builds commands and
    decodes replies. */
module KvProtocol {
  import opened CStrings
  import opened Options
  import HashChains
  import opened HashTable
  import opened Engines

  const BUFFER_LENGTH: nat := 1024

  const SPACE: CChar := 32
  const CR: CChar := 13
  const LF: CChar := 10

  /** The command words "SET", "GET", "DEL" and "MOD". */
  const SET_WORD: CString := [83, 69, 84]
  const GET_WORD: CString := [71, 69, 84]
  const DEL_WORD: CString := [68, 69, 76]
  const MOD_WORD: CString := [77, 79, 68]

  /** The replies "SUCCESS", "FAILER", "NO EXIST", "ERROR", "DEL_FAILER" and "MOD_FAILER". */
  const SUCCESS: CString := [83, 85, 67, 67, 69, 83, 83]
  const FAILER: CString := [70, 65, 73, 76, 69, 82]
  const NO_EXIST: CString := [78, 79, 32, 69, 88, 73, 83, 84]
  const ERROR: CString := [69, 82, 82, 79, 82]
  const DEL_FAILER: CString := [68, 69, 76, 95] + FAILER
  const MOD_FAILER: CString := [77, 79, 68, 95] + FAILER

  // ------------------------------------------------------------------ words

  /** A word: not empty, and without spaces. */
  predicate Plain(w: CString) {
    w != [] && SPACE !in w
  }

  /** The number of spaces a string begins with, and of other characters. */
  function Spaces(s: CString): (n: nat)
    ensures n <= |s| && (n < |s| ==> s[n] != SPACE)
  {
    if s == [] || s[0] != SPACE then 0 else 1 + Spaces(s[1..])
  }

  function WordLength(s: CString): (n: nat)
    ensures n <= |s| && SPACE !in s[..n] && (n < |s| ==> s[n] == SPACE)
  {
    if s == [] || s[0] == SPACE then 0
    else
      assert s[..1 + WordLength(s[1..])] == [s[0]] + s[1..][..WordLength(s[1..])];
      1 + WordLength(s[1..])
  }

  /** The words of a message, in order. */
  function Tokens(msg: CString): seq<CString>
    decreases |msg|
  {
    var s := msg[Spaces(msg)..];
    if s == [] then [] else [s[..WordLength(s)]] + Tokens(s[WordLength(s)..])
  }

  lemma {:induction false} WordThenSpace(w: CString, rest: CString)
    requires SPACE !in w && (rest == [] || rest[0] == SPACE)
    ensures WordLength(w + rest) == |w|
    decreases |w|
  {
    if w != [] {
      assert (w + rest)[1..] == w[1..] + rest && (w + rest)[0] == w[0];
      WordThenSpace(w[1..], rest);
    } else {
      assert w + rest == rest;
    }
  }

  lemma TokensSkip(rest: CString)
    ensures Tokens([SPACE] + rest) == Tokens(rest)
  {
    var msg := [SPACE] + rest;
    assert msg[1..] == rest && Spaces(msg) == 1 + Spaces(rest);
    assert msg[Spaces(msg)..] == rest[Spaces(rest)..];
  }

  /** A word, and after a space the words of the rest. */
  lemma {:induction false} FirstToken(w: CString, rest: CString)
    requires Plain(w)
    ensures Tokens(w + [SPACE] + rest) == [w] + Tokens(rest)
    ensures Tokens(w) == [w]
  {
    TokensTake(w, [SPACE] + rest);
    TokensSkip(rest);
    TokensTake(w, []);
    hide Tokens;
    assert w + [SPACE] + rest == w + ([SPACE] + rest);
    assert w + [] == w;
  }

  lemma TokensTake(w: CString, rest: CString)
    requires Plain(w) && (rest == [] || rest[0] == SPACE)
    ensures Tokens(w + rest) == [w] + Tokens(rest) && (rest == [] ==> Tokens(rest) == [])
  {
    var msg := w + rest;
    WordThenSpace(w, rest);
    assert msg[0] == w[0] && Spaces(msg) == 0;
    hide WordLength;
    assert msg[0..] == msg && msg[..|w|] == w && msg[|w|..] == rest;
  }

  /** Where the next word from `pos` on begins, where the word at `from` ends, and the words
      from `pos` on. */
  function WordStart(msg: CString, pos: nat): (from: nat)
    requires pos <= |msg|
    ensures pos <= from <= |msg|
  {
    pos + Spaces(msg[pos..])
  }

  function WordEnd(msg: CString, from: nat): (to: nat)
    requires from <= |msg|
    ensures from <= to <= |msg|
  {
    from + WordLength(msg[from..])
  }

  function TokensOn(msg: CString, pos: nat): seq<CString>
    requires pos <= |msg|
  {
    Tokens(msg[pos..])
  }

  lemma TokensFrom(msg: CString, pos: nat)
    requires pos <= |msg|
    ensures var from := WordStart(msg, pos);
            var to := WordEnd(msg, from);
            TokensOn(msg, pos) == if from < |msg| then [msg[from..to]] + TokensOn(msg, to) else []
  {
    var from := WordStart(msg, pos);
    var to := WordEnd(msg, from);
    var s := msg[pos..];
    var t := s[Spaces(s)..];
    hide Spaces, WordLength;
    assert t == msg[from..];
    if from < |msg| {
      assert t[..to - from] == msg[from..to] && t[to - from..] == msg[to..];
    }
  }

  method SkipSpaces(msg: CString, pos: nat) returns (from: nat)
    requires pos <= |msg|
    ensures from == WordStart(msg, pos)
  {
    from := pos;
    while from < |msg| && msg[from] == SPACE
      invariant pos <= from <= |msg| && WordStart(msg, pos) == WordStart(msg, from)
    {
      assert msg[from..][1..] == msg[from + 1..];
      from := from + 1;
    }
  }

  method SkipWord(msg: CString, from: nat) returns (to: nat)
    requires from <= |msg|
    ensures to == WordEnd(msg, from)
  {
    to := from;
    while to < |msg| && msg[to] != SPACE
      invariant from <= to <= |msg| && WordEnd(msg, from) == WordEnd(msg, to)
    {
      assert msg[to..][1..] == msg[to + 1..];
      to := to + 1;
    }
  }

  lemma WordHere(msg: CString, pos: nat)
    requires pos <= |msg|
    ensures var from := WordStart(msg, pos); from < |msg| ==> from < WordEnd(msg, from)
  {
    var from := WordStart(msg, pos);
    if from < |msg| { assert msg[from..][0] == msg[pos..][Spaces(msg[pos..])]; }
  }

  /** `strtok`: the next word from `pos` on, if any. */
  method StrTok(msg: CString, pos: nat) returns (found: bool, from: nat, to: nat)
    requires pos <= |msg|
    ensures from == WordStart(msg, pos) && found == (from < |msg|)
    ensures found ==> to == WordEnd(msg, from) && from < to
  {
    hide WordStart, WordEnd;
    WordHere(msg, pos);
    from := SkipSpaces(msg, pos);
    to := SkipWord(msg, from);
    found := from < |msg|;
  }

  /** `kvstore_split_token`. */
  method SplitToken(msg: CString) returns (tokens: seq<CString>)
    ensures tokens == Tokens(msg)
  {
    hide Tokens, TokensOn, WordStart, WordEnd;
    tokens := [];
    var pos := 0;
    WholeMessage(msg);
    var found: bool, from: nat, to: nat := StrTok(msg, 0);
    while found
      invariant pos <= |msg| && from == WordStart(msg, pos) && found == (from < |msg|)
      invariant found ==> to == WordEnd(msg, from) && from < to
      invariant Tokens(msg) == tokens + TokensOn(msg, pos)
      decreases |msg| - pos
    {
      TokensFrom(msg, pos);
      tokens := tokens + [msg[from..to]];
      pos := to;
      found, from, to := StrTok(msg, pos);
    }
    TokensFrom(msg, pos);
  }

  lemma WholeMessage(msg: CString)
    ensures TokensOn(msg, 0) == Tokens(msg)
  {
    assert msg[0..] == msg;
  }

  // ------------------------------------------------------------------ commands and replies

  /** The command a list of words stands for, if it has enough of them. */
  predicate WellFormed(tokens: seq<CString>) {
    && |tokens| >= 2
    && (tokens[0] == GET_WORD || tokens[0] == DEL_WORD
        || (|tokens| >= 3 && (tokens[0] == SET_WORD || tokens[0] == MOD_WORD)))
  }

  function Meaning(tokens: seq<CString>): Command
    requires WellFormed(tokens)
  {
    if tokens[0] == SET_WORD then Set(tokens[1], tokens[2])
    else if tokens[0] == GET_WORD then Get(tokens[1])
    else if tokens[0] == DEL_WORD then Del(tokens[1])
    else Mod(tokens[1], tokens[2])
  }

  /** What a client sends for a command. */
  function Message(c: Command): CString {
    match c
    case Set(k, v) => SET_WORD + [SPACE] + k + [SPACE] + v
    case Get(k) => GET_WORD + [SPACE] + k
    case Del(k) => DEL_WORD + [SPACE] + k
    case Mod(k, v) => MOD_WORD + [SPACE] + k + [SPACE] + v
  }

  predicate Sendable(c: Command) {
    && Plain(c.key) && (c.Set? || c.Mod? ==> Plain(c.value)) && |Message(c)| < BUFFER_LENGTH
  }

  /** Plain words with a space between are split into themselves. */
  lemma TwoWords(word: CString, k: CString)
    requires Plain(word) && Plain(k)
    ensures Tokens(word + [SPACE] + k) == [word, k]
  {
    hide Tokens, Plain;
    FirstToken(word, k);
    FirstToken(k, []);
  }

  lemma ThreeWords(word: CString, k: CString, v: CString)
    requires Plain(word) && Plain(k) && Plain(v)
    ensures Tokens(word + [SPACE] + k + [SPACE] + v) == [word, k, v]
  {
    hide Tokens, Plain;
    FirstToken(word, k + [SPACE] + v);
    TwoWords(k, v);
    assert word + [SPACE] + k + [SPACE] + v == word + [SPACE] + (k + [SPACE] + v);
  }

  /** The server understands a command as the client meant it. */
  lemma Understood(c: Command)
    requires Sendable(c)
    ensures WellFormed(Tokens(Message(c))) && Meaning(Tokens(Message(c))) == c
  {
    hide Tokens;
    match c
    case Set(k, v) => ThreeWords(SET_WORD, k, v);
    case Get(k) => TwoWords(GET_WORD, k);
    case Del(k) => TwoWords(DEL_WORD, k);
    case Mod(k, v) => ThreeWords(MOD_WORD, k, v);
  }

  /** What `snprintf` leaves of a string. */
  function Printed(s: CString): (r: CString)
    ensures r <= s && |r| == if |s| < 1024 then |s| else 1023
  {
    if |s| < BUFFER_LENGTH then s else s[..BUFFER_LENGTH - 1]
  }

  /** The server's reply, from what the map was before. */
  function Response(m: Dictionary, c: Command): CString {
    match c
    case Set(_, _) => SUCCESS
    case Get(k) => if k in m then Printed(m[k]) else NO_EXIST
    case Del(k) => if k in m then SUCCESS else ERROR
    case Mod(k, _) => if k in m then SUCCESS else ERROR
  }

  /** What a reply tells: a GET the value, as far as it fits, or that there is none; a DEL or MOD
      whether the key was there. */
  predicate Tells(m: Dictionary, c: Command, reply: CString) {
    match c
    case Set(_, _) => reply == SUCCESS
    case Get(k) => if k in m then reply <= m[k] && (|m[k]| < 1024 ==> reply == m[k]) && |reply| < 1024
                   else reply == NO_EXIST
    case Del(k) => (reply == SUCCESS <==> k in m) && (reply == ERROR <==> k !in m)
    case Mod(k, _) => (reply == SUCCESS <==> k in m) && (reply == ERROR <==> k !in m)
  }

  class KvServer {
    const engine: HashTable

    constructor (h: HashTable)
      ensures engine == h
    {
      engine := h;
    }

    /** Which command it is. */
    method Recognise(tokens: seq<CString>) returns (c: Command)
      requires WellFormed(tokens)
      ensures c == Meaning(tokens)
    {
      StrCmpEqual(SET_WORD, tokens[0]);
      StrCmpEqual(GET_WORD, tokens[0]);
      StrCmpEqual(DEL_WORD, tokens[0]);
      hide StrCmp;
      if StrCmp(SET_WORD, tokens[0]) == 0 {
        c := Set(tokens[1], tokens[2]);
      } else if StrCmp(GET_WORD, tokens[0]) == 0 {
        c := Get(tokens[1]);
      } else if StrCmp(DEL_WORD, tokens[0]) == 0 {
        c := Del(tokens[1]);
      } else {
        c := Mod(tokens[1], tokens[2]);
      }
    }

    /** The command, carried out on the hash engine. */
    method Execute(c: Command) returns (reply: CString)
      requires engine.Valid() && !engine.locked && (c.Set? ==> HashRoom(engine.dict))
      modifies engine, engine.nodes, engine.repr
      ensures engine.Valid() && engine.dict == Step(old(engine.dict), c) && reply == Response(old(engine.dict), c)
      ensures Tells(old(engine.dict), c, reply)
      ensures old(engine.maxSlots) > 0 && (engine.locked <==> Locks(old(engine.dict), old(engine.maxSlots), c))
      ensures (engine.nodes == old(engine.nodes) || fresh(engine.nodes)) && fresh(engine.repr - old(engine.repr))
    {
      hide HashTable.Valid, HashTable.Linked, HashChains.Slot;
      engine.Counted();
      engine.BucketOf(c.key);
      match c
      case Set(key, value) =>
        var ret := engine.Put(key, value);
        reply := if ret == 0 then SUCCESS else FAILER;
      case Get(key) =>
        var value := engine.Get(key);
        reply := if value.Some? then Printed(value.value) else NO_EXIST;
      case Del(key) =>
        engine.LookFor(key);
        var ret := engine.Delete(key);
        reply := if ret < 0 then ERROR else if ret == 0 then SUCCESS else DEL_FAILER;
      case Mod(key, value) =>
        var ret := engine.Modify(key, value);
        reply := if ret < 0 then ERROR else if ret == 0 then SUCCESS else MOD_FAILER;
    }

    /** `kvstore_parser_protocol`. */
    method ParserProtocol(tokens: seq<CString>) returns (reply: CString)
      requires WellFormed(tokens) && engine.Valid() && !engine.locked
      requires Meaning(tokens).Set? ==> HashRoom(engine.dict)
      modifies engine, engine.nodes, engine.repr
      ensures engine.Valid() && engine.dict == Step(old(engine.dict), Meaning(tokens))
      ensures reply == Response(old(engine.dict), Meaning(tokens))
      ensures old(engine.maxSlots) > 0
      ensures engine.locked <==> Locks(old(engine.dict), old(engine.maxSlots), Meaning(tokens))
      ensures (engine.nodes == old(engine.nodes) || fresh(engine.nodes)) && fresh(engine.repr - old(engine.repr))
    {
      hide HashTable.Valid, Step, Response, Meaning, WellFormed, Locks;
      var c := Recognise(tokens);
      reply := Execute(c);
    }

    method Request(msg: CString) returns (reply: CString)
      requires |msg| < BUFFER_LENGTH && WellFormed(Tokens(msg))
      requires engine.Valid() && !engine.locked
      requires Meaning(Tokens(msg)).Set? ==> HashRoom(engine.dict)
      modifies engine, engine.nodes, engine.repr
      ensures engine.Valid() && engine.dict == Step(old(engine.dict), Meaning(Tokens(msg)))
      ensures reply == Response(old(engine.dict), Meaning(Tokens(msg)))
      ensures old(engine.maxSlots) > 0
      ensures engine.locked <==> Locks(old(engine.dict), old(engine.maxSlots), Meaning(Tokens(msg)))
      ensures (engine.nodes == old(engine.nodes) || fresh(engine.nodes)) && fresh(engine.repr - old(engine.repr))
    {
      hide HashTable.Valid, Step, Response, Meaning, WellFormed, Tokens, Locks;
      var tokens := SplitToken(msg);
      reply := ParserProtocol(tokens);
    }
  }

  // ------------------------------------------------------------------ the client

  predicate IsLineEnd(c: CChar) {
    c == CR || c == LF
  }

  /** What is left of `s` without the CR and LF it ends in. */
  predicate Trimmed(s: CString, r: CString) {
    r <= s && (forall i :: |r| <= i < |s| ==> s[i] in {10, 13}) && (r == [] || r[|r| - 1] !in {10, 13})
  }

  function Trim(s: CString): (r: CString)
    ensures Trimmed(s, r) && (r == s <==> s == [] || !IsLineEnd(s[|s| - 1]))
  {
    if s != [] && IsLineEnd(s[|s| - 1]) then Trim(s[..|s| - 1]) else s
  }

  /** What the client makes of a reply to a GET. */
  function Decoded(reply: CString): Reply {
    if reply == NO_EXIST then None else Some(Trim(reply))
  }

  /** A value comes back from a GET after its SET if and only if it does not end in CR or LF. */
  lemma RoundTrip(m: Dictionary, k: CString, v: CString)
    requires Sendable(Set(k, v))
    ensures Decoded(Response(Step(m, Set(k, v)), Get(k))) == Some(v) <==> !IsLineEnd(v[|v| - 1])
  {
    assert |v| < BUFFER_LENGTH;
    assert NO_EXIST[2] == SPACE;
    assert v != NO_EXIST;
  }

  class KvClient {
    const server: KvServer

    constructor (s: KvServer)
      ensures server == s
    {
      server := s;
    }

    method Set(key: CString, value: CString) returns (ok: bool)
      requires Sendable(Command.Set(key, value))
      requires server.engine.Valid() && !server.engine.locked && HashRoom(server.engine.dict)
      modifies server.engine, server.engine.nodes, server.engine.repr
      ensures server.engine.Valid() && !server.engine.locked && ok
      ensures server.engine.dict == old(server.engine.dict)[key := value]
      ensures (server.engine.nodes == old(server.engine.nodes) || fresh(server.engine.nodes))
      ensures fresh(server.engine.repr - old(server.engine.repr))
    {
      hide HashTable.Valid, Tokens, Meaning, WellFormed;
      Understood(Command.Set(key, value));
      var reply := server.Request(SET_WORD + [SPACE] + key + [SPACE] + value);
      ok := reply == SUCCESS;
    }

    method Get(key: CString) returns (value: Reply)
      requires Sendable(Command.Get(key))
      requires server.engine.Valid() && !server.engine.locked
      modifies server.engine, server.engine.nodes, server.engine.repr
      ensures server.engine.Valid() && !server.engine.locked && server.engine.dict == old(server.engine.dict)
      ensures value == Decoded(Response(server.engine.dict, Command.Get(key)))
      ensures value.None? <==> key !in server.engine.dict || server.engine.dict[key] == NO_EXIST
      ensures value.Some? ==> Trimmed(Printed(server.engine.dict[key]), value.value)
    {
      hide HashTable.Valid, Tokens, Meaning, WellFormed;
      Understood(Command.Get(key));
      var reply := server.Request(GET_WORD + [SPACE] + key);
      if reply == NO_EXIST {
        return None;
      }
      ghost var whole := reply;
      while reply != [] && IsLineEnd(reply[|reply| - 1])
        invariant Trim(reply) == Trim(whole)
      {
        reply := reply[..|reply| - 1];
      }
      return Some(reply);
    }

    method Del(key: CString) returns (ok: bool)
      requires Sendable(Command.Del(key))
      requires server.engine.Valid() && !server.engine.locked
      modifies server.engine, server.engine.nodes, server.engine.repr
      ensures server.engine.Valid() && server.engine.dict == old(server.engine.dict) - {key}
      ensures ok <==> key in old(server.engine.dict)
      ensures old(server.engine.maxSlots) > 0
      ensures server.engine.locked <==> Locks(old(server.engine.dict), old(server.engine.maxSlots), Command.Del(key))
    {
      hide HashTable.Valid, Tokens, Meaning, WellFormed;
      Understood(Command.Del(key));
      var reply := server.Request(DEL_WORD + [SPACE] + key);
      ok := reply == SUCCESS;
    }
  }

  /** SET, then GET, through client, tokenizer and hash engine, on any store that has room. */
  method SetThenGet(client: KvClient, key: CString, value: CString) returns (ok: bool, got: Reply)
    requires Sendable(Set(key, value)) && Sendable(Get(key))
    requires client.server.engine.Valid() && !client.server.engine.locked && HashRoom(client.server.engine.dict)
    modifies client.server.engine, client.server.engine.nodes, client.server.engine.repr
    ensures ok && (got == Some(value) <==> !IsLineEnd(value[|value| - 1]))
    ensures client.server.engine.Valid() && !client.server.engine.locked
    ensures client.server.engine.dict == old(client.server.engine.dict)[key := value]
  {
    hide HashTable.Valid, Response, Decoded;
    RoundTrip(client.server.engine.dict, key, value);
    ok := client.Set(key, value);
    got := client.Get(key);
  }
}
