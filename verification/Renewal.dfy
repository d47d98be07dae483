/** Building and decoding the messages of the proxy-renewal client. */
module Renewal {
  import opened CText
  import opened Numerals
  import opened Tokens

  const ERANGE := 34

  const PROTO_VERSION := "Version="
  const PROTO_COMMAND := "Command="
  const PROTO_MYPROXY_SERVER := "Myproxy_server="
  const PROTO_PROXY := "Proxy_name="
  const PROTO_JOBID := "Jobid="
  const PROTO_ENTRY := "Entry="
  const PROTO_RESPONSE := "Response="
  const PROTO_START_TIME := "Start_time="
  const PROTO_END_TIME := "End_time="
  const PROTO_RENEWAL_TIME := "Renewal_time="
  const PROTO_KEYS := {PROTO_VERSION, PROTO_COMMAND, PROTO_MYPROXY_SERVER, PROTO_PROXY, PROTO_JOBID, PROTO_ENTRY,
                       PROTO_RESPONSE, PROTO_START_TIME, PROTO_END_TIME, PROTO_RENEWAL_TIME}

  const VERSION := "EDG Proxy Renewal 1.0"

  // ----- Building

  predicate NoNul(s: string) {
    '\0' !in s
  }

  method StrLen(a: array<char>, ghost text: string) returns (n: nat)
    requires IsCString(a, text) && NoNul(text)
    ensures n == |text|
  {
    assert forall i :: 0 <= i < |text| ==> a[..|text|][i] == text[i] != '\0';
    n := 0;
    while a[n] != '\0'
      invariant n <= |text|
      decreases |text| - n
    {
      n := n + 1;
    }
  }

  predicate TooLong(t: Token) {
    |t.key| + 1 + |t.value| + 2 > LINE_SIZE
  }

  /** edg_wlpr_StoreToken: appends a line, in a larger block when it does not fit. */
  method StoreToken(buf: array<char>, t: Token, ghost text: string) returns (status: int, out: array<char>)
    requires IsCString(buf, text) && NoNul(text) && NoNul(t.key) && NoNul(t.value)
    modifies buf
    ensures status == if TooLong(t) then ERANGE else 0
    ensures out == buf || fresh(out)
    ensures IsCString(out, if status == 0 then text + Line(t) else text)
  {
    out := buf;
    if TooLong(t) {
      return ERANGE, out;
    }
    var line := t.key + t.value + SEPARATORS;
    var used := StrLen(out, text);
    while used + |line| + 1 > out.Length
      invariant IsCString(out, text) && (out == buf || fresh(out))
      decreases used + |line| + 1 - out.Length
    {
      out := Realloc(out, out.Length + BUF_SIZE, text);
    }
    forall i | 0 <= i < |line| {
      out[used + i] := line[i];
    }
    out[used + |line|] := '\0';
    status := 0;
    assert out[..used + |line|] == text + line;
  }

  method Realloc(a: array<char>, size: nat, ghost text: string) returns (b: array<char>)
    requires IsCString(a, text) && size >= a.Length
    ensures fresh(b) && b.Length == size && IsCString(b, text)
  {
    b := new char[size];
    forall i | 0 <= i < a.Length {
      b[i] := a[i];
    }
    assert b[..|text|] == a[..|text|];
  }

  datatype Request = Request(
    command: int, myproxyServer: Option<string>, proxyFilename: Option<string>, jobid: Option<string>,
    entries: seq<string>)

  /** edg_wlpr_EncodeInt and edg_wlpr_DecodeInt. */
  function EncodeInt(num: int): string {
    SignedDecimal(num)
  }

  function DecodeInt(str: string): int {
    ToInt32(StrToLong(str).0)
  }

  lemma IntRoundTrip(num: int)
    requires -TWO32 / 2 <= num < TWO32 / 2
    ensures DecodeInt(EncodeInt(num)) == num
  {
    hide StrToLong, SignedDecimal;
    StrToLongOfSigned(num);
  }

  function Optional(key: string, value: Option<string>): seq<Token> {
    if value.Some? then [Token(key, value.value)] else []
  }

  /** The host goes through a buffer of 1024 characters. */
  function Host(server: Option<string>): Option<string> {
    if server.Some? then Some(server.value[..Min(1023, |server.value|)]) else None
  }

  function EntryTokens(entries: seq<string>): (r: seq<Token>)
    ensures |r| == |entries|
  {
    if entries == [] then [] else EntryTokens(entries[..|entries| - 1]) + [Token(PROTO_ENTRY, entries[|entries| - 1])]
  }

  /** The tokens of a request, in the order in which they are stored. */
  function RequestTokens(r: Request): seq<Token> {
    [Token(PROTO_VERSION, VERSION), Token(PROTO_COMMAND, EncodeInt(r.command))]
    + Optional(PROTO_MYPROXY_SERVER, Host(r.myproxyServer)) + Optional(PROTO_PROXY, r.proxyFilename)
    + Optional(PROTO_JOBID, r.jobid) + EntryTokens(r.entries)
  }

  ghost predicate RequestNoNul(r: Request) {
    && (r.myproxyServer.Some? ==> NoNul(r.myproxyServer.value))
    && (r.proxyFilename.Some? ==> NoNul(r.proxyFilename.value))
    && (r.jobid.Some? ==> NoNul(r.jobid.value)) && forall i :: 0 <= i < |r.entries| ==> NoNul(r.entries[i])
  }

  lemma {:induction false} TextAppend(tokens: seq<Token>, t: Token)
    ensures Text(tokens + [t]) == Text(tokens) + Line(t)
  {
    if tokens == [] {
      assert tokens + [t] == [t];
    } else {
      assert (tokens + [t])[1..] == tokens[1..] + [t];
      TextAppend(tokens[1..], t);
    }
  }

  /** What calls of edg_wlpr_StoreToken for these tokens lead to, when the first that fails ends them. */
  ghost predicate Stored(tokens: seq<Token>, status: int, buf: array<char>)
    reads buf
  {
    && NoNul(Text(tokens)) && (status == 0 ==> IsCString(buf, Text(tokens)))
    && (status == 0 <==> forall t :: t in tokens ==> !TooLong(t)) && status in {0, ERANGE}
  }

  method StoreNext(buf: array<char>, before: int, t: Token, ghost tokens: seq<Token>)
    returns (status: int, out: array<char>)
    requires Stored(tokens, before, buf) && NoNul(t.key) && NoNul(t.value)
    modifies buf
    ensures Stored(tokens + [t], status, out) && (out == buf || fresh(out))
  {
    status, out := before, buf;
    TextAppend(tokens, t);
    assert forall u :: u in tokens + [t] <==> u in tokens || u == t;
    if before == 0 {
      status, out := StoreToken(buf, t, Text(tokens));
    }
  }

  /** A token that is there only when its field is. */
  method StoreOptional(buf: array<char>, before: int, key: string, value: Option<string>, ghost tokens: seq<Token>)
    returns (status: int, out: array<char>)
    requires Stored(tokens, before, buf) && NoNul(key) && (value.Some? ==> NoNul(value.value))
    modifies buf
    ensures Stored(tokens + Optional(key, value), status, out) && (out == buf || fresh(out))
  {
    status, out := before, buf;
    if value.Some? {
      status, out := StoreNext(buf, before, Token(key, value.value), tokens);
    } else {
      assert tokens + [] == tokens;
    }
  }

  lemma EncodedIntNoNul(num: int)
    ensures NoNul(EncodeInt(num))
  {
  }

  lemma NothingStored(buf: array<char>)
    requires buf.Length > 0 && buf[0] == '\0'
    ensures Stored([], 0, buf)
  {
  }

  /** encode_request; the message is NULL when a token is too long. */
  method EncodeRequest(r: Request) returns (status: int, msg: array?<char>)
    requires RequestNoNul(r)
    ensures status in {0, ERANGE} && (status == 0 <==> forall t :: t in RequestTokens(r) ==> !TooLong(t))
    ensures if status == 0 then msg != null && fresh(msg) && IsCString(msg, Text(RequestTokens(r))) else msg == null
  {
    hide Stored, EncodeInt;
    var buf := new char[BUF_SIZE];
    buf[0] := '\0';
    NothingStored(buf);
    ghost var tokens: seq<Token> := [];
    status, buf := StoreNext(buf, 0, Token(PROTO_VERSION, VERSION), tokens);
    tokens := tokens + [Token(PROTO_VERSION, VERSION)];
    EncodedIntNoNul(r.command);
    status, buf := StoreNext(buf, status, Token(PROTO_COMMAND, EncodeInt(r.command)), tokens);
    tokens := tokens + [Token(PROTO_COMMAND, EncodeInt(r.command))];
    assert tokens == [Token(PROTO_VERSION, VERSION), Token(PROTO_COMMAND, EncodeInt(r.command))];
    status, buf := StoreOptional(buf, status, PROTO_MYPROXY_SERVER, Host(r.myproxyServer), tokens);
    tokens := tokens + Optional(PROTO_MYPROXY_SERVER, Host(r.myproxyServer));
    status, buf := StoreOptional(buf, status, PROTO_PROXY, r.proxyFilename, tokens);
    tokens := tokens + Optional(PROTO_PROXY, r.proxyFilename);
    status, buf := StoreOptional(buf, status, PROTO_JOBID, r.jobid, tokens);
    tokens := tokens + Optional(PROTO_JOBID, r.jobid);
    status, buf := StoreEntries(buf, status, r.entries, tokens);
    StoredOutcome(RequestTokens(r), status, buf);
    msg := if status == 0 then buf else null;
  }

  lemma StoredOutcome(tokens: seq<Token>, status: int, buf: array<char>)
    requires Stored(tokens, status, buf)
    ensures status in {0, ERANGE} && (status == 0 <==> forall t :: t in tokens ==> !TooLong(t))
    ensures status == 0 ==> IsCString(buf, Text(tokens))
  {
  }

  method StoreEntries(buf: array<char>, before: int, entries: seq<string>, ghost tokens: seq<Token>)
    returns (status: int, out: array<char>)
    requires Stored(tokens, before, buf) && forall i :: 0 <= i < |entries| ==> NoNul(entries[i])
    modifies buf
    ensures Stored(tokens + EntryTokens(entries), status, out) && (out == buf || fresh(out))
  {
    hide Stored;
    status, out := before, buf;
    assert tokens + EntryTokens([]) == tokens;
    for p := 0 to |entries|
      invariant Stored(tokens + EntryTokens(entries[..p]), status, out) && (out == buf || fresh(out))
    {
      assert entries[..p + 1][..p] == entries[..p];
      assert tokens + EntryTokens(entries[..p]) + [Token(PROTO_ENTRY, entries[p])]
             == tokens + EntryTokens(entries[..p + 1]);
      status, out := StoreNext(out, status, Token(PROTO_ENTRY, entries[p]), tokens + EntryTokens(entries[..p]));
    }
    assert entries[..|entries|] == entries;
  }

  // ----- What a reader finds in a request

  /** Letters before the '=' that tell a key from the others: two, and a third for four of them. */
  function Mark(key: string): string
    requires |key| >= 6
  {
    var n := |key|;
    if key[n - 2] == 'e' && key[n - 3] == 'm' && n >= 7 then [key[n - 2], key[n - 3], key[n - 7]]
    else [key[n - 2], key[n - 3]]
  }

  /** The key with these letters. */
  function Marked(mark: string): string {
    if mark == "no" then PROTO_VERSION
    else if mark == "dn" then PROTO_COMMAND
    else if mark == "re" then PROTO_MYPROXY_SERVER
    else if mark == "emy" then PROTO_PROXY
    else if mark == "di" then PROTO_JOBID
    else if mark == "yr" then PROTO_ENTRY
    else if mark == "es" then PROTO_RESPONSE
    else if mark == "emt" then PROTO_START_TIME
    else if mark == "emd" then PROTO_END_TIME
    else PROTO_RENEWAL_TIME
  }

  lemma KeyMark(key: string)
    requires key in PROTO_KEYS
    ensures |key| >= 6 && (|key| < 7 ==> key[|key| - 2] != 'e') && Marked(Mark(key)) == key
  {
  }

  lemma SuffixMark(a: string, b: string)
    requires 6 <= |a| && (|a| < 7 ==> a[|a| - 2] != 'e') && IsSuffix(a, b)
    ensures Mark(a) == Mark(b)
  {
    var end := b[|b| - |a|..];
    assert end[|a| - 2] == b[|b| - 2] && end[|a| - 3] == b[|b| - 3];
    assert |a| >= 7 ==> end[|a| - 7] == b[|b| - 7];
  }

  lemma KeysDiffer(a: string, b: string)
    requires a in PROTO_KEYS && b in PROTO_KEYS && a != b
    ensures !IsSuffix(a, b)
  {
    hide Mark, Marked, IsSuffix;
    KeyMark(a);
    KeyMark(b);
    if IsSuffix(a, b) {
      SuffixMark(a, b);
    }
  }

  lemma NamedKey(key: string)
    requires key != "" && key[|key| - 1] == '=' && '=' !in key[..|key| - 1] && '\n' !in key
    ensures IsKey(key)
  {
    assert forall i :: 0 <= i < |key| - 1 ==> key[i] == key[..|key| - 1][i];
    IndexOfIs(key, '=', |key| - 1);
  }

  lemma IsProtocolKey(key: string)
    requires key in PROTO_KEYS
    ensures IsKey(key)
  {
    hide IsKey;
    NamedKey(key);
  }

  lemma {:induction false} NoEqualsNoKey(s: string, key: string)
    requires IsKey(key) && '=' !in s
    ensures !Contains(s, key)
  {
    if |key| <= |s| {
      assert s[..|key|][|key| - 1] == s[|key| - 1];
    }
    if s != "" {
      NoEqualsNoKey(s[1..], key);
    }
  }

  /** Text that a field may have: not empty, on one line, and without any key. */
  predicate IsClean(s: string) {
    s != "" && '\n' !in s && forall key :: key in PROTO_KEYS ==> !Contains(s, key)
  }

  predicate RequestClean(r: Request) {
    && (r.myproxyServer.Some? ==> IsClean(r.myproxyServer.value[..Min(1023, |r.myproxyServer.value|)]))
    && (r.proxyFilename.Some? ==> IsClean(r.proxyFilename.value))
    && (r.jobid.Some? ==> IsClean(r.jobid.value))
    && forall i :: 0 <= i < |r.entries| ==> IsClean(r.entries[i])
  }

  predicate CleanToken(t: Token) {
    t.key in PROTO_KEYS && IsClean(t.value)
  }

  lemma CleanTokensApart(tokens: seq<Token>, key: string)
    requires key in PROTO_KEYS && forall t :: t in tokens ==> CleanToken(t)
    ensures IsKey(key) && KeysApart(tokens, key) && forall t :: t in tokens ==> !Contains(t.value, key)
  {
    hide IsKey, Contains, IsSuffix;
    IsProtocolKey(key);
    forall t | t in tokens ensures IsToken(t) && (t.key != key ==> !IsSuffix(key, t.key)) {
      IsProtocolKey(t.key);
      if t.key != key {
        KeysDiffer(key, t.key);
      }
    }
  }

  lemma PlainIsClean(s: string)
    requires s != "" && '=' !in s && '\n' !in s
    ensures IsClean(s)
  {
    forall key | key in PROTO_KEYS ensures !Contains(s, key) {
      IsProtocolKey(key);
      NoEqualsNoKey(s, key);
    }
  }

  lemma {:induction false} EntriesAreClean(entries: seq<string>)
    requires forall i :: 0 <= i < |entries| ==> IsClean(entries[i])
    ensures forall t :: t in EntryTokens(entries) ==> CleanToken(t)
  {
    hide IsClean;
    if entries != [] {
      EntriesAreClean(entries[..|entries| - 1]);
    }
  }

  lemma RequestTokensClean(r: Request)
    requires RequestClean(r)
    ensures forall t :: t in RequestTokens(r) ==> CleanToken(t)
  {
    hide IsClean, EncodeInt;
    PlainIsClean(VERSION);
    EncodedIntPlain(r.command);
    PlainIsClean(EncodeInt(r.command));
    EntriesAreClean(r.entries);
  }

  lemma EncodedIntPlain(num: int)
    ensures EncodeInt(num) != "" && '=' !in EncodeInt(num) && '\n' !in EncodeInt(num)
  {
  }

  lemma {:induction false} ValuesAppend(a: seq<Token>, b: seq<Token>, key: string)
    ensures Values(a + b, key) == Values(a, key) + Values(b, key)
  {
    if a == [] {
      assert a + b == b;
    } else {
      assert (a + b)[1..] == a[1..] + b;
      ValuesAppend(a[1..], b, key);
    }
  }

  lemma {:induction false} EntryValues(entries: seq<string>, key: string)
    ensures Values(EntryTokens(entries), key) == if key == PROTO_ENTRY then entries else []
  {
    if entries != [] {
      var n := |entries| - 1;
      EntryValues(entries[..n], key);
      ValuesAppend(EntryTokens(entries[..n]), [Token(PROTO_ENTRY, entries[n])], key);
      assert Values([Token(PROTO_ENTRY, entries[n])], key) == if key == PROTO_ENTRY then [entries[n]] else [];
      assert entries == entries[..n] + [entries[n]];
    }
  }

  lemma OptionalValues(own: string, value: Option<string>, key: string)
    ensures Values(Optional(own, value), key) == if key == own && value.Some? then [value.value] else []
  {
    if value.Some? {
      assert Optional(own, value)[1..] == [];
    }
  }

  /** The values of a key in the order of a request. */
  lemma RequestValues(r: Request, key: string)
    ensures Values(RequestTokens(r), key)
            == (if key == PROTO_VERSION then [VERSION] else [])
               + (if key == PROTO_COMMAND then [EncodeInt(r.command)] else [])
               + (if key == PROTO_MYPROXY_SERVER && r.myproxyServer.Some? then [Host(r.myproxyServer).value] else [])
               + (if key == PROTO_PROXY && r.proxyFilename.Some? then [r.proxyFilename.value] else [])
               + (if key == PROTO_JOBID && r.jobid.Some? then [r.jobid.value] else [])
               + (if key == PROTO_ENTRY then r.entries else [])
  {
    hide Values, EncodeInt, EntryTokens;
    var first := [Token(PROTO_VERSION, VERSION), Token(PROTO_COMMAND, EncodeInt(r.command))];
    var host, proxy := Optional(PROTO_MYPROXY_SERVER, Host(r.myproxyServer)), Optional(PROTO_PROXY, r.proxyFilename);
    var jobid := Optional(PROTO_JOBID, r.jobid);
    TwoValues(first[0], first[1], key);
    ValuesAppend(first, host, key);
    ValuesAppend(first + host, proxy, key);
    ValuesAppend(first + host + proxy, jobid, key);
    ValuesAppend(first + host + proxy + jobid, EntryTokens(r.entries), key);
    OptionalValues(PROTO_MYPROXY_SERVER, Host(r.myproxyServer), key);
    OptionalValues(PROTO_PROXY, r.proxyFilename, key);
    OptionalValues(PROTO_JOBID, r.jobid, key);
    EntryValues(r.entries, key);
  }

  lemma TwoValues(a: Token, b: Token, key: string)
    ensures Values([a, b], key) == (if a.key == key then [a.value] else []) + (if b.key == key then [b.value] else [])
  {
    assert [a, b][1..] == [b] && [b][1..] == [];
    assert Values([b], key) == if b.key == key then [b.value] else [];
  }

  /** A reader of the message that encode_request builds finds each field under its key, the entries
      in order, and nothing for a field that is not there. Of a server's name that has 1024 characters or
      more it finds the first 1023. */
  lemma RequestReadBack(r: Request, i: nat)
    requires RequestClean(r)
    ensures var msg := Text(RequestTokens(r));
            && TokenAt(msg, PROTO_VERSION, SEPARATORS, 0) == Value(VERSION)
            && TokenAt(msg, PROTO_COMMAND, SEPARATORS, 0) == Value(EncodeInt(r.command))
            && (match r.myproxyServer
                case None => TokenAt(msg, PROTO_MYPROXY_SERVER, SEPARATORS, 0) == NotFound
                case Some(server) =>
                  && (TokenAt(msg, PROTO_MYPROXY_SERVER, SEPARATORS, 0) == Value(server) <==> |server| < 1024)
                  && (|server| >= 1024 ==>
                        TokenAt(msg, PROTO_MYPROXY_SERVER, SEPARATORS, 0) == Value(server[..1023])))
            && TokenAt(msg, PROTO_PROXY, SEPARATORS, 0) == FoundOption(r.proxyFilename)
            && TokenAt(msg, PROTO_JOBID, SEPARATORS, 0) == FoundOption(r.jobid)
            && TokenAt(msg, PROTO_ENTRY, SEPARATORS, i) == if i < |r.entries| then Value(r.entries[i]) else NotFound
  {
    hide IsClean, EncodeInt, EntryTokens, RequestTokens, TokenAt, Values, KeysApart, IsKey, Contains;
    RequestTokensClean(r);
    forall key | key in {PROTO_VERSION, PROTO_COMMAND, PROTO_MYPROXY_SERVER, PROTO_PROXY, PROTO_JOBID}
      ensures TokenAt(Text(RequestTokens(r)), key, SEPARATORS, 0) == FirstOf(Values(RequestTokens(r), key))
    {
      CleanTokensApart(RequestTokens(r), key);
      ReadsBack(RequestTokens(r), key, 0);
    }
    CleanTokensApart(RequestTokens(r), PROTO_ENTRY);
    ReadsBack(RequestTokens(r), PROTO_ENTRY, i);
    RequestValues(r, PROTO_VERSION);
    RequestValues(r, PROTO_COMMAND);
    RequestValues(r, PROTO_MYPROXY_SERVER);
    RequestValues(r, PROTO_PROXY);
    RequestValues(r, PROTO_JOBID);
    RequestValues(r, PROTO_ENTRY);
  }

  function FoundOption(value: Option<string>): Found {
    if value.Some? then Value(value.value) else NotFound
  }

  function FirstOf(values: seq<string>): Found {
    if values != [] then Value(values[0]) else NotFound
  }

  // ----- Decoding a response

  datatype Response = Response(
    version: string, responseCode: int, myproxyServer: Option<string>, startTime: int, endTime: int,
    nextRenewalTime: int, filenames: seq<string>)

  datatype Decoded = Ok(response: Response) | Failed(why: Found)

  /** A field that may be missing. */
  function OptionalValue(f: Found): Option<string> {
    if f.Value? then Some(f.text) else None
  }

  function OptionalInt(f: Found): int {
    if f.Value? then DecodeInt(f.text) else 0
  }

  /** The first n values of a key. */
  function Collected(msg: string, key: string, n: nat): seq<string>
    requires forall i :: 0 <= i < n ==> TokenAt(msg, key, SEPARATORS, i).Value?
  {
    seq(n, i requires 0 <= i < n => TokenAt(msg, key, SEPARATORS, i).text)
  }

  /** The values of the key are those before index n, where the message has no more of them. */
  predicate HasExactly(msg: string, key: string, n: nat) {
    && (forall i :: 0 <= i < n ==> TokenAt(msg, key, SEPARATORS, i).Value?)
    && TokenAt(msg, key, SEPARATORS, n) == NotFound
  }

  /** A list that ends with NULL inside its block. */
  ghost predicate NullTerminated(list: array?<Option<string>>, names: seq<string>)
    reads list
  {
    if list == null then names == []
    else |names| < list.Length && list[|names|] == None && forall i :: 0 <= i < |names| ==> list[i] == Some(names[i])
  }

  /** No index has a token when an earlier one has none. */
  lemma NoneAfter(msg: string, key: string, n: nat, i: nat)
    requires key != "" && TokenAt(msg, key, SEPARATORS, n) == NotFound && n <= i
    ensures TokenAt(msg, key, SEPARATORS, i) == NotFound
  {
    hide Nth, ValueIn;
    NthExists(msg, key, n);
    NthExists(msg, key, i);
    ValueIsFound(msg, key, n);
    ValueIsFound(msg, key, i);
  }

  lemma ValueIsFound(msg: string, key: string, i: nat)
    ensures TokenAt(msg, key, SEPARATORS, i) == NotFound <==> Nth(msg, key, i) == None
  {
    hide Nth;
  }

  /** The loop of decode_response that collects the proxies in a block growing by sixteen. */
  method CollectProxies(msg: string) returns (last: Found, filenames: array?<Option<string>>, ghost n: nat)
    ensures !last.Value? && forall i :: 0 <= i < n ==> TokenAt(msg, PROTO_PROXY, SEPARATORS, i).Value?
    ensures last == TokenAt(msg, PROTO_PROXY, SEPARATORS, n)
    ensures last == NotFound ==> NullTerminated(filenames, Collected(msg, PROTO_PROXY, n))
    ensures (filenames == null <==> n == 0) && (filenames != null ==> fresh(filenames))
  {
    hide TokenAt;
    var i, currentSize := 0, 0;
    filenames := null;
    last := GetToken(msg, PROTO_PROXY, SEPARATORS, i);
    while last.Value?
      invariant 0 <= i <= currentSize && (filenames == null <==> i == 0)
      invariant last == TokenAt(msg, PROTO_PROXY, SEPARATORS, i)
      invariant forall k :: 0 <= k < i ==> TokenAt(msg, PROTO_PROXY, SEPARATORS, k).Value?
      invariant filenames == null ==> currentSize == 0
      invariant filenames != null ==> fresh(filenames) && filenames.Length == currentSize + 1
      invariant filenames != null ==>
                  forall k :: 0 <= k < i ==> filenames[k] == Some(TokenAt(msg, PROTO_PROXY, SEPARATORS, k).text)
      decreases Count(msg, PROTO_PROXY) - i
    {
      CountedValue(msg, i);
      if i >= currentSize {
        var larger := new Option<string>[currentSize + 16 + 1];
        if filenames != null {
          forall k | 0 <= k < i {
            larger[k] := filenames[k];
          }
        }
        filenames := larger;
        currentSize := currentSize + 16;
      }
      filenames[i] := Some(last.text);
      i := i + 1;
      last := GetToken(msg, PROTO_PROXY, SEPARATORS, i);
    }
    n := i;
    if last == NotFound && filenames != null {
      filenames[i] := None;
    }
  }

  lemma CountedValue(msg: string, i: nat)
    requires TokenAt(msg, PROTO_PROXY, SEPARATORS, i).Value?
    ensures i < Count(msg, PROTO_PROXY)
  {
    hide Nth, Count;
    NthExists(msg, PROTO_PROXY, i);
  }

  /** What a response says, when its proxies are n. */
  function ResponseOf(msg: string, n: nat): Response
    requires TokenAt(msg, PROTO_VERSION, SEPARATORS, 0).Value? && TokenAt(msg, PROTO_RESPONSE, SEPARATORS, 0).Value?
    requires forall i :: 0 <= i < n ==> TokenAt(msg, PROTO_PROXY, SEPARATORS, i).Value?
  {
    Response(TokenAt(msg, PROTO_VERSION, SEPARATORS, 0).text,
             DecodeInt(TokenAt(msg, PROTO_RESPONSE, SEPARATORS, 0).text),
             OptionalValue(TokenAt(msg, PROTO_MYPROXY_SERVER, SEPARATORS, 0)),
             OptionalInt(TokenAt(msg, PROTO_START_TIME, SEPARATORS, 0)),
             OptionalInt(TokenAt(msg, PROTO_END_TIME, SEPARATORS, 0)),
             OptionalInt(TokenAt(msg, PROTO_RENEWAL_TIME, SEPARATORS, 0)),
             Collected(msg, PROTO_PROXY, n))
  }

  /** The tokens that decode_response insists on or reads when they are there. */
  ghost predicate Decodable(msg: string, n: nat) {
    && TokenAt(msg, PROTO_VERSION, SEPARATORS, 0).Value? && TokenAt(msg, PROTO_RESPONSE, SEPARATORS, 0).Value?
    && TokenAt(msg, PROTO_MYPROXY_SERVER, SEPARATORS, 0) != ParseError
    && TokenAt(msg, PROTO_START_TIME, SEPARATORS, 0) != ParseError
    && TokenAt(msg, PROTO_END_TIME, SEPARATORS, 0) != ParseError
    && TokenAt(msg, PROTO_RENEWAL_TIME, SEPARATORS, 0) != ParseError
    && HasExactly(msg, PROTO_PROXY, n)
  }

  /** An integer token: absent ones leave the field 0. */
  method GetInt(msg: string, key: string) returns (f: Found, num: int)
    ensures f == TokenAt(msg, key, SEPARATORS, 0) && num == OptionalInt(f)
  {
    hide TokenAt;
    f := GetToken(msg, key, SEPARATORS, 0);
    num := 0;
    if f.Value? {
      num := DecodeInt(f.text);
    }
  }

  /** decode_response: it succeeds exactly on decodable messages, with their fields and the proxies in
      a list that ends with NULL inside its block. */
  method DecodeResponse(msg: string) returns (r: Decoded, filenames: array?<Option<string>>, ghost n: nat)
    ensures r.Ok? <==> Decodable(msg, n)
    ensures r.Ok? ==> r.response == ResponseOf(msg, n) && NullTerminated(filenames, r.response.filenames)
    ensures !r.Ok? ==> filenames == null && forall k :: !Decodable(msg, k)
  {
    hide TokenAt, DecodeInt, NullTerminated;
    filenames, n := null, 0;
    var version := GetToken(msg, PROTO_VERSION, SEPARATORS, 0);
    if !version.Value? {
      r := Failed(version);
      return;
    }
    var code := GetToken(msg, PROTO_RESPONSE, SEPARATORS, 0);
    if !code.Value? {
      r := Failed(code);
      return;
    }
    var server := GetToken(msg, PROTO_MYPROXY_SERVER, SEPARATORS, 0);
    if server == ParseError {
      r := Failed(server);
      return;
    }
    var found, start, end, renewal;
    found, start := GetInt(msg, PROTO_START_TIME);
    if found == ParseError {
      r := Failed(found);
      return;
    }
    found, end := GetInt(msg, PROTO_END_TIME);
    if found == ParseError {
      r := Failed(found);
      return;
    }
    found, renewal := GetInt(msg, PROTO_RENEWAL_TIME);
    if found == ParseError {
      r := Failed(found);
      return;
    }
    found, filenames, n := CollectProxies(msg);
    if found != NotFound {
      filenames := null;
      forall k ensures !HasExactly(msg, PROTO_PROXY, k) {
        NotExactly(msg, n, k);
      }
      r := Failed(found);
      return;
    }
    var names := ReadList(filenames, Collected(msg, PROTO_PROXY, n));
    r := Ok(Response(version.text, DecodeInt(code.text), OptionalValue(server), start, end, renewal, names));
  }

  lemma NotExactly(msg: string, n: nat, k: nat)
    requires TokenAt(msg, PROTO_PROXY, SEPARATORS, n) == ParseError
    requires forall i :: 0 <= i < n ==> TokenAt(msg, PROTO_PROXY, SEPARATORS, i).Value?
    ensures !HasExactly(msg, PROTO_PROXY, k)
  {
    hide TokenAt;
    if k <= n && HasExactly(msg, PROTO_PROXY, k) {
      NoneAfter(msg, PROTO_PROXY, k, n);
    }
  }

  /** The names before the NULL. */
  method ReadList(list: array?<Option<string>>, ghost names: seq<string>) returns (r: seq<string>)
    requires NullTerminated(list, names)
    ensures r == names
  {
    r := [];
    if list != null {
      while list[|r|] != None
        invariant |r| <= |names| && r == names[..|r|]
        decreases |names| - |r|
      {
        r := r + [list[|r|].value];
      }
    }
  }

  /** A response made of clean tokens, a version and a code among them, is decoded to the first value
      of each key and to all the proxies in their order. */
  lemma ResponseReadBack(tokens: seq<Token>)
    requires forall t :: t in tokens ==> CleanToken(t)
    requires Values(tokens, PROTO_VERSION) != [] && Values(tokens, PROTO_RESPONSE) != []
    ensures var msg, n := Text(tokens), |Values(tokens, PROTO_PROXY)|;
            && Decodable(msg, n) && ResponseOf(msg, n).filenames == Values(tokens, PROTO_PROXY)
            && ResponseOf(msg, n).version == Values(tokens, PROTO_VERSION)[0]
            && ResponseOf(msg, n).responseCode == DecodeInt(Values(tokens, PROTO_RESPONSE)[0])
            && FoundOption(ResponseOf(msg, n).myproxyServer) == FirstOf(Values(tokens, PROTO_MYPROXY_SERVER))
            && ResponseOf(msg, n).startTime == OptionalInt(FirstOf(Values(tokens, PROTO_START_TIME)))
            && ResponseOf(msg, n).endTime == OptionalInt(FirstOf(Values(tokens, PROTO_END_TIME)))
            && ResponseOf(msg, n).nextRenewalTime == OptionalInt(FirstOf(Values(tokens, PROTO_RENEWAL_TIME)))
  {
    hide TokenAt, CleanToken, Values, KeysApart, IsKey, Contains, DecodeInt;
    var msg := Text(tokens);
    forall key, i: nat | key in PROTO_KEYS
      ensures TokenAt(msg, key, SEPARATORS, i)
              == if i < |Values(tokens, key)| then Value(Values(tokens, key)[i]) else NotFound
    {
      CleanTokensApart(tokens, key);
      ReadsBack(tokens, key, i);
    }
    assert {PROTO_VERSION, PROTO_RESPONSE, PROTO_MYPROXY_SERVER, PROTO_START_TIME, PROTO_END_TIME, PROTO_RENEWAL_TIME,
            PROTO_PROXY} <= PROTO_KEYS;
  }
}
