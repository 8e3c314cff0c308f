/** HTTP request reassembly (message length as in section 3.3.3 of RFC 7230):
    src/http/server.cpp, src/http/headers.cpp and src/http/request.cpp. */
module Http {
  import opened Common
  import opened Strings

  const END_OF_HEAD := "\r\n\r\n"

  // ---- line splitting ----

  predicate StartsNl(s: string) {
    |s| >= 2 && s[0] == '\r' && s[1] == '\n'
  }

  function SplitNl(s: string): (parts: seq<string>)
    ensures parts != []
  {
    if s == "" then [""]
    else if StartsNl(s) then [""] + SplitNl(s[2..])
    else
      Glue(s[0], SplitNl(s[1..]))
  }

  // A character before the first part.
  function Glue(x: char, parts: seq<string>): (r: seq<string>)
    requires parts != []
    ensures |r| == |parts|
  {
    [[x] + parts[0]] + parts[1..]
  }

  // A text after the last part.
  function Extend(parts: seq<string>, b: string): (r: seq<string>)
    requires parts != []
    ensures |r| == |parts|
  {
    parts[..|parts| - 1] + [parts[|parts| - 1] + b]
  }

  predicate HasNl(s: string) {
    exists i :: 0 <= i < |s| - 1 && s[i] == '\r' && s[i + 1] == '\n'
  }

  // QByteArray::indexOf()
  function IndexOf(s: string, pattern: string): int {
    if |s| < |pattern| then -1
    else if s[..|pattern|] == pattern then 0
    else if s == "" then -1
    else
      var i := IndexOf(s[1..], pattern);
      if i < 0 then -1 else i + 1
  }

  // ---- headers ----

  function LowerChar(c: char): char {
    if 'A' <= c <= 'Z' then (c as int + 32) as char else c
  }

  function Lower(s: string): string {
    seq(|s|, i requires 0 <= i < |s| => LowerChar(s[i]))
  }

  type Fields = map<string, string>

  /** The header lines; one without exactly one colon is skipped, a later one overrides. */
  function ReadFields(lines: seq<string>): Fields {
    if lines == [] then map[]
    else
      var front, keyval := ReadFields(lines[..|lines| - 1]), Split(lines[|lines| - 1], ':');
      if lines[|lines| - 1] == "" || |keyval| != 2 then front
      else front[Lower(Trimmed(keyval[0])) := Trimmed(keyval[1])]
  }

  method ReadFieldsLoop(lines: seq<string>) returns (fields: Fields)
    ensures fields == ReadFields(lines)
  {
    fields := map[];
    for i := 0 to |lines|
      invariant fields == ReadFields(lines[..i])
    {
      assert lines[..i + 1][..i] == lines[..i];
      var line := lines[i];
      if line == "" {
        continue;
      }
      var keyval := Split(line, ':');
      if |keyval| != 2 {
        continue;
      }
      fields := fields[Lower(Trimmed(keyval[0])) := Trimmed(keyval[1])];
    }
    assert lines[..|lines|] == lines;
  }

  function Get(fields: Fields, key: string): string {
    if Lower(key) in fields then fields[Lower(key)] else ""
  }

  datatype Headers = Headers(httpMethod: string, url: string, version: string, size: int, fields: Fields)

  /** Undefined is the removeLast() on an empty list that a text without any line break
      leads to. */
  datatype Decoded = Good(headers: Headers) | Bad | Undefined

  function DecodeHead(data: string): Decoded {
    var lines := SplitNl(Until(data, '\0'));
    var fields := Split(lines[0], ' ');
    if |fields| < 3 then Bad
    else if |lines| == 1 then Undefined
    else
      var size := IndexOf(data, END_OF_HEAD) + 4;
      Good(Headers(fields[0], fields[1], fields[2], size, ReadFields(lines[1..|lines| - 1])))
  }

  /** The request's content is what follows its last line break, up to a zero byte. */
  function Content(data: string): string {
    var lines := SplitNl(Until(data, '\0'));
    lines[|lines| - 1]
  }

  // ---- the receiver ----

  /** The length of a message: its head and the body length the head declares. */
  function Expected(h: Headers): int {
    h.size + ToInt(Get(h.fields, "content-Length"))
  }

  datatype Context = Context(data: string, bytesExpected: int)

  const EMPTY := Context("", 0)

  /** `respond` stands for handleMessage(): the reply, empty when decoding or handling fails. */
  type Responder = string -> string

  /** One chunk; the message handed over, if any. Undefined is passed on. */
  datatype Received = Received(context: Context, message: Option<string>) | Stuck

  function Receive(c: Context, chunk: string, respond: Responder): Received {
    if chunk == "" then Received(c, None)
    else if c.data == "" then
      match DecodeHead(chunk)
      case Bad => Received(c, None)
      case Undefined => Stuck
      case Good(h) => Append(c.(bytesExpected := Expected(h)), chunk, respond)
    else Append(c, chunk, respond)
  }

  // The chunk is appended; a complete message is handed over and, if answered, cleared.
  function Append(c: Context, chunk: string, respond: Responder): Received {
    var data := c.data + chunk;
    if |data| < c.bytesExpected then Received(c.(data := data), None)
    else Received(c.(data := if respond(data) == "" then data else ""), Some(data))
  }

  class HttpServer {
    var contexts: map<nat, Context>

    constructor ()
      ensures contexts == map[]
    {
      contexts := map[];
    }

    ghost function At(socket: nat): Context
      reads this
    {
      if socket in contexts then contexts[socket] else EMPTY
    }

    method ReadyRead(socket: nat, inData: string, respond: Responder) returns (message: Option<string>, stuck: bool)
      modifies this
      ensures stuck <==> Receive(old(At(socket)), inData, respond).Stuck?
      ensures !stuck ==> Received(At(socket), message) == Receive(old(At(socket)), inData, respond)
      ensures forall other :: other != socket ==> At(other) == old(At(other))
    {
      hide DecodeHead, Expected;
      message, stuck := None, false;
      if inData == "" {
        return;
      }
      var c := if socket in contexts then contexts[socket] else EMPTY;
      contexts := contexts[socket := c];
      if c.data == "" {
        match DecodeHead(inData) {
          case Good(h) => c := c.(bytesExpected := Expected(h));
          case Bad => return;
          case Undefined =>
            stuck := true;
            return;
        }
      }
      c := c.(data := c.data + inData);
      if |c.data| >= c.bytesExpected {
        message := Some(c.data);
        if respond(c.data) != "" {
          c := c.(data := "");
        }
      }
      contexts := contexts[socket := c];
    }

    method Disconnected(socket: nat)
      modifies this
      ensures At(socket) == EMPTY
      ensures forall other :: other != socket ==> At(other) == old(At(other))
    {
      contexts := contexts - {socket};
    }
  }

  // ---- line splitting over concatenation ----

  lemma GlueExtend(x: char, parts: seq<string>, b: string)
    requires parts != []
    ensures Glue(x, Extend(parts, b)) == Extend(Glue(x, parts), b)
  {
    if |parts| == 1 {
      assert [x] + (parts[0] + b) == [x] + parts[0] + b;
    }
  }

  lemma BlankExtend(parts: seq<string>, b: string)
    requires parts != []
    ensures [""] + Extend(parts, b) == Extend([""] + parts, b)
  {
  }

  lemma StartsNlConcat(h: string, b: string)
    requires h != "" && (|h| == 1 ==> h[0] != '\r')
    ensures StartsNl(h + b) == StartsNl(h) && (h + b)[1..] == h[1..] + b
    ensures StartsNl(h) ==> (h + b)[2..] == h[2..] + b
  {
  }

  /** A text put after a line break, or inside a line, goes on in the last part. */
  lemma {:induction false} SplitNlConcat(h: string, b: string)
    requires h == "" || h[|h| - 1] != '\r'
    requires !HasNl(b)
    ensures SplitNl(h + b) == Extend(SplitNl(h), b)
    decreases |h|
  {
    hide HasNl, Glue, Extend, StartsNl;
    if h == "" {
      SplitNlWhole(b);
      ExtendBlank(b);
      assert h + b == b;
    } else {
      StartsNlConcat(h, b);
      if StartsNl(h) {
        StartsNlLength(h);
        SplitNlConcat(h[2..], b);
        BlankExtend(SplitNl(h[2..]), b);
      } else {
        SplitNlConcat(h[1..], b);
        GlueExtend(h[0], SplitNl(h[1..]), b);
      }
    }
  }

  lemma ExtendBlank(b: string)
    ensures Extend([""], b) == [b]
  {
    assert "" + b == b;
  }

  lemma StartsNlLength(h: string)
    requires StartsNl(h)
    ensures |h| >= 2 && (|h| > 2 ==> h[2..][|h| - 3] == h[|h| - 1])
  {
  }

  lemma NoNlInTail(b: string)
    requires !HasNl(b) && b != ""
    ensures !StartsNl(b) && !HasNl(b[1..])
  {
    forall i | 0 <= i < |b[1..]| - 1 ensures !(b[1..][i] == '\r' && b[1..][i + 1] == '\n') {
      assert !(b[i + 1] == '\r' && b[i + 1 + 1] == '\n');
    }
  }

  lemma NoNlInPrefix(a: string, b: string)
    requires !HasNl(b) && a <= b
    ensures !HasNl(a)
  {
    forall i | 0 <= i < |a| - 1 ensures !(a[i] == '\r' && a[i + 1] == '\n') {
      assert !(b[i] == '\r' && b[i + 1] == '\n');
    }
  }

  lemma {:induction false} SplitNlWhole(b: string)
    requires !HasNl(b)
    ensures SplitNl(b) == [b]
  {
    hide HasNl;
    if b != "" {
      NoNlInTail(b);
      SplitNlWhole(b[1..]);
      assert [b[0]] + b[1..] == b;
    }
  }

  lemma {:induction false} PartsHaveNoNl(s: string, k: nat)
    requires k < |SplitNl(s)|
    ensures !HasNl(SplitNl(s)[k])
    decreases |s|
  {
    if s == "" {
    } else if StartsNl(s) {
      if k > 0 {
        PartsHaveNoNl(s[2..], k - 1);
      }
    } else {
      PartsHaveNoNl(s[1..], k);
      if k == 0 {
        FirstPartStarts(s[1..]);
      }
    }
  }

  // A first part is a prefix: it starts with a line feed only when the text does.
  lemma FirstPartStarts(s: string)
    ensures SplitNl(s)[0] != "" ==> s != "" && SplitNl(s)[0][0] == s[0]
  {
  }

  lemma {:induction false} PartsChars(s: string, k: nat, c: char)
    requires k < |SplitNl(s)| && c in SplitNl(s)[k]
    ensures c in s
    decreases |s|
  {
    if StartsNl(s) {
      PartsChars(s[2..], k - 1, c);
    } else if k > 0 || c in SplitNl(s[1..])[0] {
      PartsChars(s[1..], k, c);
    }
  }

  lemma {:induction false} IndexOfPrefix(h: string, b: string, pattern: string)
    requires IndexOf(h, pattern) >= 0
    ensures IndexOf(h + b, pattern) == IndexOf(h, pattern)
  {
    assert (h + b)[..|pattern|] == h[..|pattern|];
    if h[..|pattern|] != pattern {
      assert (h + b)[1..] == h[1..] + b;
      IndexOfPrefix(h[1..], b, pattern);
    }
  }

  predicate EndsInNl(h: string) {
    |h| >= 2 && h[|h| - 2] == '\r' && h[|h| - 1] == '\n'
  }

  lemma {:induction false} BlankAfterNl(h: string)
    requires EndsInNl(h)
    ensures var p := SplitNl(h); |p| >= 2 && p[|p| - 1] == ""
    decreases |h|
  {
    if StartsNl(h) {
      if |h| > 2 {
        if |h| == 3 {
          assert false;
        }
        BlankAfterNl(h[2..]);
      } else {
        assert h[2..] == "";
      }
    } else {
      BlankAfterNl(h[1..]);
    }
  }

  // ---- heads and bodies ----

  /** A head: a text without zero bytes, with a request line of three words or more, that
      ends at its first blank line. */
  predicate IsHead(head: string) {
    && '\0' !in head
    && |head| >= 4 && IndexOf(head, END_OF_HEAD) == |head| - 4
    && head[|head| - 4..] == END_OF_HEAD
    && |Split(SplitNl(head)[0], ' ')| >= 3
  }

  function DeclaredLength(head: string): int {
    var lines := SplitNl(head);
    ToInt(Get(ReadFields(lines[1..if |lines| < 2 then 1 else |lines| - 1]), "content-Length"))
  }

  lemma HeadEndsInNl(head: string)
    requires IsHead(head)
    ensures EndsInNl(head)
  {
    assert head[|head| - 2] == head[|head| - 4..][2] && head[|head| - 1] == head[|head| - 4..][3];
  }

  // The lines of a text that ends in a line break, with more put after it.
  lemma LinesAfter(head: string, part: string)
    requires EndsInNl(head) && '\0' !in head && !HasNl(Until(part, '\0'))
    ensures SplitNl(Until(head + part, '\0')) == Extend(SplitNl(head), Until(part, '\0'))
    ensures |SplitNl(head)| >= 2
    ensures var p, q := SplitNl(head), SplitNl(Until(head + part, '\0'));
            q[|q| - 1] == Until(part, '\0') && q[0] == p[0] && q[1..|q| - 1] == p[1..|p| - 1]
  {
    hide HasNl, Until, SplitNl, Extend;
    UntilNulAfter(head, part);
    BlankAfterNl(head);
    SplitNlConcat(head, Until(part, '\0'));
    ExtendAfterBlank(SplitNl(head), Until(part, '\0'));
  }

  lemma ExtendAfterBlank(p: seq<string>, b: string)
    requires |p| >= 2 && p[|p| - 1] == ""
    ensures var q := Extend(p, b);
            q[|q| - 1] == b && q[0] == p[0] && q[1..|q| - 1] == p[1..|p| - 1]
  {
  }

  /** A chunk that holds the head and some of the body decodes like the head alone. */
  lemma ChunkDecodes(head: string, part: string)
    requires IsHead(head) && !HasNl(part)
    ensures DecodeHead(head + part).Good?
    ensures DecodeHead(head + part).headers.size == |head|
    ensures Expected(DecodeHead(head + part).headers) == |head| + DeclaredLength(head)
    ensures Content(head + part) == Until(part, '\0')
  {
    HeadEndsInNl(head);
    NoNlInPrefix(Until(part, '\0'), part);
    LinesAfter(head, part);
    IndexOfPrefix(head, part, END_OF_HEAD);
    hide HasNl, IndexOf, SplitNl, Until, Extend, Split, ReadFields;
  }

  /** After a head, the content of a request is its body exactly when the body has neither a
      line break nor a zero byte; after a head with a zero byte it is no matter of the body. */
  lemma ContentIsBody(head: string, body: string)
    requires EndsInNl(head)
    ensures '\0' !in head ==> (Content(head + body) == body <==> !HasNl(body) && '\0' !in body)
    ensures '\0' in head ==> Content(head + body) == Content(head)
  {
    hide HasNl, Until, SplitNl, Extend;
    UntilNulAfter(head, body);
    if '\0' !in head {
      if !HasNl(body) {
        NoNlInPrefix(Until(body, '\0'), body);
        LinesAfter(head, body);
      } else {
        PartsHaveNoNl(Until(head + body, '\0'), |SplitNl(Until(head + body, '\0'))| - 1);
      }
    }
  }

  // ---- one request over chunks ----

  function Concat(chunks: seq<string>): string {
    if chunks == [] then "" else chunks[0] + Concat(chunks[1..])
  }

  // readAll() of a socket that has something to read
  ghost predicate NonEmpty(chunks: seq<string>) {
    forall i :: 0 <= i < |chunks| ==> chunks[i] != ""
  }

  /** What a connection has come to: its context and the messages handed over so far. */
  datatype Session = Session(context: Context, messages: seq<string>, stuck: bool)

  function ReceiveAll(c: Context, chunks: seq<string>, respond: Responder): Session
    decreases |chunks|
  {
    if chunks == [] then Session(c, [], false)
    else
      match Receive(c, chunks[0], respond)
      case Stuck => Session(c, [], true)
      case Received(c', message) => HandOver(message, ReceiveAll(c', chunks[1..], respond))
  }

  function HandOver(message: Option<string>, s: Session): (r: Session)
    ensures message.None? ==> r == s
    ensures r.stuck == s.stuck && r.context == s.context
  {
    if message.None? then s else s.(messages := [message.value] + s.messages)
  }

  lemma ReceiveGrows(c: Context, chunk: string, respond: Responder)
    requires Receive(c, chunk, respond).Received?
    ensures var r := Receive(c, chunk, respond);
            && |r.context.data| <= |c.data| + |chunk|
            && (r.message.Some? ==> |r.message.value| <= |c.data| + |chunk|)
  {
    hide DecodeHead;
  }

  /** Nothing is handed over that is longer than what came in. */
  lemma {:induction false} MessagesFit(c: Context, chunks: seq<string>, respond: Responder, k: nat)
    requires k < |ReceiveAll(c, chunks, respond).messages|
    ensures |ReceiveAll(c, chunks, respond).messages[k]| <= |c.data| + |Concat(chunks)|
    decreases |chunks|
  {
    hide Receive;
    var r := Receive(c, chunks[0], respond);
    ReceiveGrows(c, chunks[0], respond);
    if r.message.None? {
      MessagesFit(r.context, chunks[1..], respond, k);
    } else if k > 0 {
      MessagesFit(r.context, chunks[1..], respond, k - 1);
    }
  }

  /** The expected length lies behind the last chunk's start and not behind its end; a single
      chunk need only be long enough. */
  predicate EndsInLast(expected: int, total: nat, chunks: seq<string>)
    requires chunks != []
  {
    expected <= total && (|chunks| == 1 || total - |chunks[|chunks| - 1]| < expected)
  }

  lemma {:induction false} LastFits(chunks: seq<string>)
    requires chunks != []
    ensures |chunks[|chunks| - 1]| <= |Concat(chunks)|
  {
    if |chunks| > 1 {
      LastFits(chunks[1..]);
    }
  }

  // From a first chunk that is appended on, with `d` the context it is appended to.
  lemma {:induction false} Completes(c: Context, d: Context, chunks: seq<string>, respond: Responder)
    requires chunks != [] && NonEmpty(chunks)
    requires Receive(c, chunks[0], respond) == Append(d, chunks[0], respond)
    ensures ReceiveAll(c, chunks, respond).messages == [d.data + Concat(chunks)] <==>
            EndsInLast(d.bytesExpected, |d.data| + |Concat(chunks)|, chunks)
    decreases |chunks|
  {
    hide ReceiveAll, Receive, Append, Concat;
    var data, rest := d.data + chunks[0], chunks[1..];
    AppendFirst(c, d, chunks, respond);
    ConcatFirst(d.data, chunks);
    HandedOver(data, ReceiveAll(After(d, data, respond), rest, respond));
    hide HandOver;
    if |chunks| == 1 {
      NothingMore(After(d, data, respond), respond);
      NothingMore(d.(data := data), respond);
    } else {
      RestFits(chunks);
      if |data| < d.bytesExpected {
        var d' := d.(data := data);
        AppendedNext(d', rest[0], respond);
        Completes(d', d', rest, respond);
      } else {
        assert |data + Concat(rest)| > |data|;
      }
    }
  }

  lemma ConcatFirst(data: string, chunks: seq<string>)
    requires chunks != []
    ensures data + Concat(chunks) == data + chunks[0] + Concat(chunks[1..])
    ensures |data| + |Concat(chunks)| == |data + chunks[0]| + |Concat(chunks[1..])|
    ensures |chunks| == 1 ==> Concat(chunks[1..]) == "" && data + chunks[0] + "" == data + chunks[0]
    ensures |chunks| == 2 ==> Concat(chunks[1..]) == chunks[1]
  {
    if |chunks| == 2 {
      OneChunk(chunks[1..]);
    }
    var rest := Concat(chunks[1..]);
    assert Concat(chunks) == chunks[0] + rest;
    assert |chunks| == 1 ==> rest == "";
    hide Concat;
    ThreeParts(data, chunks[0], rest);
  }

  lemma OneChunk(chunks: seq<string>)
    requires |chunks| == 1
    ensures Concat(chunks) == chunks[0]
  {
    assert chunks[0] + "" == chunks[0];
  }

  lemma RestFits(chunks: seq<string>)
    requires |chunks| > 1 && NonEmpty(chunks)
    ensures var rest := chunks[1..];
            NonEmpty(rest) && rest[|rest| - 1] == chunks[|chunks| - 1] && 0 < |rest[|rest| - 1]| <= |Concat(rest)|
  {
    hide Concat;
    LastFits(chunks[1..]);
  }

  // The context after a message: the text is kept when nothing is answered.
  function After(d: Context, whole: string, respond: Responder): Context {
    d.(data := if respond(whole) == "" then whole else "")
  }

  // The first chunk is handed over when it is long enough, or the others follow it.
  lemma AppendFirst(c: Context, d: Context, chunks: seq<string>, respond: Responder)
    requires chunks != []
    requires Receive(c, chunks[0], respond) == Append(d, chunks[0], respond)
    ensures var data, all := d.data + chunks[0], ReceiveAll(c, chunks, respond);
            if |data| >= d.bytesExpected then
              all == HandOver(Some(data), ReceiveAll(After(d, data, respond), chunks[1..], respond))
            else all == ReceiveAll(d.(data := data), chunks[1..], respond)
  {
    hide Receive, HandOver;
  }

  lemma NothingMore(c: Context, respond: Responder)
    ensures ReceiveAll(c, [], respond) == Session(c, [], false)
  {
  }

  lemma HandedOver(m: string, s: Session)
    ensures HandOver(Some(m), s).messages == [m] + s.messages
    ensures HandOver(Some(m), s).messages[0] == m && HandOver(Some(m), s).messages[1..] == s.messages
    ensures s.messages == [] ==> HandOver(Some(m), s).messages == [m]
  {
  }

  lemma AppendedNext(d: Context, chunk: string, respond: Responder)
    requires d.data != "" && chunk != ""
    ensures Receive(d, chunk, respond) == Append(d, chunk, respond)
  {
  }

  /** For every split of a message into chunks: it is handed over once and whole if and only
      if its first chunk decodes and the length that chunk makes expected is reached by the
      last chunk and by none before it. */
  lemma ReassemblesIff(c: Context, chunks: seq<string>, respond: Responder)
    requires c.data == "" && chunks != [] && NonEmpty(chunks)
    ensures ReceiveAll(c, chunks, respond).messages == [Concat(chunks)] <==> Served(chunks)
  {
    hide DecodeHead, Expected;
    match DecodeHead(chunks[0])
    case Good(h) =>
      var d := c.(bytesExpected := Expected(h));
      Completes(c, d, chunks, respond);
      assert d.data + Concat(chunks) == Concat(chunks);
    case Undefined =>
    case Bad =>
      var s := ReceiveAll(c, chunks, respond);
      if s.messages == [Concat(chunks)] {
        assert s == ReceiveAll(c, chunks[1..], respond);
        MessagesFit(c, chunks[1..], respond, 0);
      }
  }

  lemma {:induction false} Accumulates(c: Context, d: Context, chunks: seq<string>, respond: Responder)
    requires chunks != [] && NonEmpty(chunks)
    requires Receive(c, chunks[0], respond) == Append(d, chunks[0], respond)
    requires EndsInLast(d.bytesExpected, |d.data| + |Concat(chunks)|, chunks)
    ensures var whole := d.data + Concat(chunks);
            ReceiveAll(c, chunks, respond) == Session(After(d, whole, respond), [whole], false)
    decreases |chunks|
  {
    hide ReceiveAll, Receive, Append, Concat, HandOver, After;
    var data, rest := d.data + chunks[0], chunks[1..];
    AppendFirst(c, d, chunks, respond);
    ConcatFirst(d.data, chunks);
    if |chunks| == 1 {
      NothingMore(After(d, data, respond), respond);
      OneMessage(data, After(d, data, respond));
    } else {
      RestFits(chunks);
      var d' := d.(data := data);
      AppendedNext(d', rest[0], respond);
      Accumulates(d', d', rest, respond);
      SameAfter(d, d', data + Concat(rest), respond);
    }
  }

  lemma OneMessage(m: string, c: Context)
    ensures HandOver(Some(m), Session(c, [], false)) == Session(c, [m], false)
  {
  }

  lemma SameAfter(d: Context, d': Context, whole: string, respond: Responder)
    requires d.bytesExpected == d'.bytesExpected
    ensures After(d, whole, respond) == After(d', whole, respond)
  {
  }

  /** Chunks that are handed over as one message: the first decodes, and the length it makes
      expected ends in the last. */
  predicate Served(chunks: seq<string>) {
    && chunks != [] && DecodeHead(chunks[0]).Good?
    && EndsInLast(Expected(DecodeHead(chunks[0]).headers), |Concat(chunks)|, chunks)
  }

  lemma ServedReceives(c: Context, chunks: seq<string>, respond: Responder) returns (d: Context)
    requires c.data == "" && NonEmpty(chunks) && Served(chunks)
    ensures d.bytesExpected <= |Concat(chunks)|
    ensures ReceiveAll(c, chunks, respond) == Session(After(d, Concat(chunks), respond), [Concat(chunks)], false)
  {
    hide DecodeHead, Expected, ReceiveAll, After;
    d := c.(bytesExpected := Expected(DecodeHead(chunks[0]).headers));
    assert d.data + Concat(chunks) == Concat(chunks);
    Accumulates(c, d, chunks, respond);
    hide Append, Concat;
  }

  /** A request whose head lies in the first of its chunks. */
  ghost predicate SplitRequest(head: string, body: string, chunks: seq<string>) {
    && IsHead(head) && !HasNl(body) && DeclaredLength(head) == |body|
    && chunks != [] && NonEmpty(chunks)
    && |chunks[0]| >= |head| && Concat(chunks) == head + body
  }

  lemma SplitIsServed(head: string, body: string, chunks: seq<string>)
    requires SplitRequest(head, body, chunks)
    ensures Served(chunks)
  {
    hide DecodeHead, Expected, DeclaredLength, IsHead, HasNl;
    FirstChunkIsPrefix(head, body, chunks);
    ChunkDecodes(head, chunks[0][|head|..]);
    LastStartsLater(chunks);
    hide Concat;
  }

  /** However the body of such a request is split, it is handed over once and whole. */
  lemma Reassembles(c: Context, head: string, body: string, chunks: seq<string>, respond: Responder)
    requires SplitRequest(head, body, chunks) && c.data == ""
    ensures ReceiveAll(c, chunks, respond).messages == [head + body]
  {
    hide Served, ReceiveAll;
    SplitIsServed(head, body, chunks);
    ReassemblesIff(c, chunks, respond);
  }

  // The last of several non-empty chunks starts later than the text.
  lemma LastStartsLater(chunks: seq<string>)
    requires chunks != [] && NonEmpty(chunks)
    ensures EndsInLast(|Concat(chunks)|, |Concat(chunks)|, chunks)
  {
  }

  lemma FirstChunkIsPrefix(head: string, body: string, chunks: seq<string>)
    requires chunks != [] && |chunks[0]| >= |head| && Concat(chunks) == head + body && !HasNl(body)
    ensures chunks[0] == head + chunks[0][|head|..] && !HasNl(chunks[0][|head|..])
  {
    var first, part := chunks[0], chunks[0][|head|..];
    assert first == (head + body)[..|first|] == head + body[..|part|];
    NoNlInPrefix(part, body);
  }

  lemma {:induction false} ConcatSpill(chunks: seq<string>, extra: string)
    requires chunks != []
    ensures Concat(Extend(chunks, extra)) == Concat(chunks) + extra
  {
    hide Concat;
    var longer := Extend(chunks, extra);
    ConcatFirst("", chunks);
    ConcatFirst("", longer);
    if |chunks| == 1 {
      OneChunk(chunks);
      OneChunk(longer);
    } else {
      assert longer[0] == chunks[0] && longer[1..] == Extend(chunks[1..], extra);
      ConcatSpill(chunks[1..], extra);
      Spilled(chunks, longer, extra);
    }
  }

  lemma Spilled(chunks: seq<string>, longer: seq<string>, extra: string)
    requires chunks != [] && longer != [] && longer[0] == chunks[0]
    requires Concat(longer[1..]) == Concat(chunks[1..]) + extra
    ensures Concat(longer) == Concat(chunks) + extra
  {
    var rest := Concat(chunks[1..]);
    assert Concat(chunks) == chunks[0] + rest && Concat(longer) == chunks[0] + (rest + extra);
    hide Concat;
    ThreeParts(chunks[0], rest, extra);
  }

  /** What the last chunk of a request brings of the next request is handed over with it. */
  lemma SpillGlues(c: Context, head: string, body: string, chunks: seq<string>, extra: string, respond: Responder)
    requires SplitRequest(head, body, chunks) && |chunks| > 1 && c.data == ""
    ensures ReceiveAll(c, Extend(chunks, extra), respond).messages == [head + body + extra]
  {
    hide DecodeHead, Expected, DeclaredLength, IsHead, HasNl, ReceiveAll;
    var longer := Extend(chunks, extra);
    assert longer[0] == chunks[0];
    FirstChunkIsPrefix(head, body, chunks);
    ChunkDecodes(head, chunks[0][|head|..]);
    ConcatSpill(chunks, extra);
    assert NonEmpty(longer);
    ReassemblesIff(c, longer, respond);
    hide Concat, Extend;
  }

  // ---- heads that arrive in parts ----

  lemma {:induction false} NoEndInLine(line: string)
    requires !HasNl(line)
    ensures IndexOf(line + "\r\n", END_OF_HEAD) == -1
  {
    var s := line + "\r\n";
    if |s| >= 4 {
      hide HasNl;
      NoNlInTail(line);
      NoEndInLine(line[1..]);
      assert s[1..] == line[1..] + "\r\n";
      assert END_OF_HEAD[0] == '\r' && END_OF_HEAD[1] == '\n';
      assert s[..4][0] == line[0] && s[..4][1] == line[1];
    }
  }

  lemma LineSplits(line: string)
    requires line == "" || line[|line| - 1] != '\r'
    requires !HasNl(line)
    ensures SplitNl(line + "\r\n") == [line, ""]
  {
    hide HasNl;
    if line == "" {
      assert SplitNl("") == [""];
      assert "" + "\r\n" == "\r\n" && "\r\n"[2..] == "";
    } else {
      NoNlInTail(line);
      StartsNlConcat(line, "\r\n");
      LineSplits(line[1..]);
      assert [line[0]] + line[1..] == line;
    }
  }

  /** When the request line alone comes first, it is handed over as a message. */
  lemma LineHandedOver(line: string, rest: seq<string>, respond: Responder)
    requires line != "" && line[|line| - 1] != '\r' && !HasNl(line) && '\0' !in line
    requires |Split(line, ' ')| >= 3
    ensures var messages := ReceiveAll(EMPTY, [line + "\r\n"] + rest, respond).messages;
            messages != [] && messages[0] == line + "\r\n"
  {
    var chunk := line + "\r\n";
    LineDecodes(line);
    hide DecodeHead, Expected, Split, SplitNl, Until;
    assert ([chunk] + rest)[1..] == rest && "" + chunk == chunk;
    assert Receive(EMPTY, chunk, respond).message == Some(chunk);
  }

  lemma LineDecodes(line: string)
    requires line != "" && line[|line| - 1] != '\r' && !HasNl(line) && '\0' !in line
    requires |Split(line, ' ')| >= 3
    ensures DecodeHead(line + "\r\n").Good? && Expected(DecodeHead(line + "\r\n").headers) == 3
  {
    LineSplits(line);
    NoEndInLine(line);
    BlankIsZero();
    hide HasNl, Split, SplitNl, IndexOf, ToInt;
    assert '\0' !in line + "\r\n";
    assert [line, ""][1..1] == [];
  }

  /** When a part of the request line comes first, it is dropped. */
  lemma PartOfLineDropped(c: Context, part: string, rest: seq<string>, respond: Responder)
    requires c.data == "" && !HasNl(part) && |Split(Until(part, '\0'), ' ')| < 3
    ensures ReceiveAll(c, [part] + rest, respond) == ReceiveAll(c, rest, respond)
  {
    NoNlInPrefix(Until(part, '\0'), part);
    SplitNlWhole(Until(part, '\0'));
    assert ([part] + rest)[1..] == rest;
  }

  lemma NoNlWithoutCr(s: string)
    requires '\r' !in s
    ensures !HasNl(s)
  {
  }

  /** One request, split in its head in two ways that lose it. */
  lemma SplitHeadsLose(respond: Responder)
    ensures var messages := ReceiveAll(EMPTY, ["GET / HTTP/1.1\r\n", "\r\n"], respond).messages;
            messages != [] && messages[0] == "GET / HTTP/1.1\r\n"
    ensures ReceiveAll(EMPTY, ["GET /", " HTTP/1.1\r\n\r\n"], respond) ==
            ReceiveAll(EMPTY, [" HTTP/1.1\r\n\r\n"], respond)
  {
    hide Split, HasNl, ReceiveAll, Until;
    RequestLine("GET", "/", "HTTP/1.1");
    var line, part := "GET" + [' '] + "/" + [' '] + "HTTP/1.1", "GET" + [' '] + "/";
    NoNlWithoutCr(line);
    LineHandedOver(line, ["\r\n"], respond);
    assert line + "\r\n" == "GET / HTTP/1.1\r\n";
    assert ["GET / HTTP/1.1\r\n"] + ["\r\n"] == ["GET / HTTP/1.1\r\n", "\r\n"];
    NoNlWithoutCr(part);
    PartOfLineDropped(EMPTY, part, [" HTTP/1.1\r\n\r\n"], respond);
    assert part == "GET /";
    assert ["GET /"] + [" HTTP/1.1\r\n\r\n"] == ["GET /", " HTTP/1.1\r\n\r\n"];
  }

  lemma RequestLine(word: string, url: string, version: string)
    requires ' ' !in word && ' ' !in url && ' ' !in version
    ensures Split(word + [' '] + url + [' '] + version, ' ') == [word, url, version]
    ensures Split(word + [' '] + url, ' ') == [word, url]
  {
    hide Split;
    ThreeParts(word + [' '], url + [' '], version);
    ThreeParts(word + [' '], url, [' ']);
    SplitAfter(word, ' ', url + [' '] + version);
    SplitAfter(url, ' ', version);
    SplitWhole(version, ' ');
    SplitAfter(word, ' ', url);
    SplitWhole(url, ' ');
  }

  // ---- connections ----

  datatype Request = Request(head: string, body: string)

  /** A request with its length declared; the body may hold anything. */
  predicate IsRequest(r: Request) {
    IsHead(r.head) && DeclaredLength(r.head) == |r.body|
  }

  ghost predicate AllRequests(rs: seq<Request>) {
    forall i :: 0 <= i < |rs| ==> IsRequest(rs[i])
  }

  function Whole(r: Request): string {
    r.head + r.body
  }

  function Wholes(rs: seq<Request>): seq<string> {
    if rs == [] then [] else [Whole(rs[0])] + Wholes(rs[1..])
  }

  ghost predicate AllButLastAnswered(rs: seq<Request>, respond: Responder) {
    forall i :: 0 <= i < |rs| - 1 ==> respond(Whole(rs[i])) != ""
  }

  /** The chunks fall into groups, one for each message, each of which is handed over as one. */
  ghost predicate Grouped(messages: seq<string>, chunks: seq<string>) {
    if messages == [] then chunks == []
    else
      exists k ::
        && 0 < k <= |chunks| && Concat(chunks[..k]) == messages[0] && Served(chunks[..k])
        && Grouped(messages[1..], chunks[k..])
  }

  lemma {:induction false} ConcatSplit(chunks: seq<string>, k: nat)
    requires k <= |chunks|
    ensures Concat(chunks) == Concat(chunks[..k]) + Concat(chunks[k..])
  {
    if k == 0 {
      assert chunks[..0] == [] && chunks[0..] == chunks;
    } else {
      ConcatSplit(chunks[1..], k - 1);
      var first, rest := chunks[..k], chunks[1..];
      assert rest[..k - 1] == first[1..] && rest[k - 1..] == chunks[k..] && first[0] == chunks[0];
      ThreeParts(chunks[0], Concat(first[1..]), Concat(chunks[k..]));
    }
  }

  lemma SomeText(chunks: seq<string>)
    requires NonEmpty(chunks)
    ensures |Concat(chunks)| == 0 <==> chunks == []
  {
  }

  // The first message of chunks that are appended on, and what follows it.
  lemma {:induction false} FirstAppended(c: Context, d: Context, chunks: seq<string>, respond: Responder)
    returns (k: nat)
    requires chunks != [] && NonEmpty(chunks)
    requires Receive(c, chunks[0], respond) == Append(d, chunks[0], respond)
    requires ReceiveAll(c, chunks, respond).messages != []
    ensures 0 < k <= |chunks|
    ensures EndsInLast(d.bytesExpected, |d.data| + |Concat(chunks[..k])|, chunks[..k])
    ensures var m, all := d.data + Concat(chunks[..k]), ReceiveAll(c, chunks, respond).messages;
            all == [m] + ReceiveAll(After(d, m, respond), chunks[k..], respond).messages
    decreases |chunks|
  {
    hide ReceiveAll, Receive, Append, HandOver, After, Concat;
    var data, rest := d.data + chunks[0], chunks[1..];
    AppendFirst(c, d, chunks, respond);
    if |data| >= d.bytesExpected {
      k := 1;
      OneChunk(chunks[..1]);
      HandedOver(data, ReceiveAll(After(d, data, respond), rest, respond));
    } else {
      var d' := d.(data := data);
      if rest == [] {
        NothingMore(d', respond);
      }
      AppendedNext(d', rest[0], respond);
      k := FirstAppended(d', d', rest, respond);
      GroupGrows(chunks, k, d);
      SameAfter(d, d', data + Concat(rest[..k]), respond);
      k := k + 1;
    }
  }

  // A first chunk that is too short, put before a group that ends in its last chunk.
  lemma GroupGrows(chunks: seq<string>, k: nat, d: Context)
    requires chunks != [] && 0 < k <= |chunks| - 1
    requires var data := d.data + chunks[0];
             |data| < d.bytesExpected &&
             EndsInLast(d.bytesExpected, |data| + |Concat(chunks[1..][..k])|, chunks[1..][..k])
    ensures EndsInLast(d.bytesExpected, |d.data| + |Concat(chunks[..k + 1])|, chunks[..k + 1])
    ensures d.data + Concat(chunks[..k + 1]) == d.data + chunks[0] + Concat(chunks[1..][..k])
    ensures chunks[1..][k..] == chunks[k + 1..]
  {
    var first := chunks[..k + 1];
    assert first[1..] == chunks[1..][..k] && first[0] == chunks[0];
    ConcatFirst(d.data, first);
    hide Concat;
    if k == 1 {
      assert first[1..] == [chunks[1]];
      assert |Concat(first[1..])| == |first[1]| by {
        OneChunk(first[1..]);
      }
    }
  }

  // The first message of a fresh connection: some chunks that are dropped, a group that is
  // handed over, and what follows it.
  lemma {:induction false} FirstMessage(c: Context, chunks: seq<string>, respond: Responder)
    returns (j: nat, k: nat, d: Context)
    requires c.data == "" && NonEmpty(chunks) && ReceiveAll(c, chunks, respond).messages != []
    ensures j < k <= |chunks| && Served(chunks[j..k]) && d.bytesExpected <= |Concat(chunks[j..k])|
    ensures var m := Concat(chunks[j..k]);
            ReceiveAll(c, chunks, respond).messages ==
            [m] + ReceiveAll(After(d, m, respond), chunks[k..], respond).messages
    decreases |chunks|
  {
    hide DecodeHead, Expected, Append, After, Concat;
    match DecodeHead(chunks[0])
    case Good(h) =>
      d := c.(bytesExpected := Expected(h));
      assert Receive(c, chunks[0], respond) == Append(d, chunks[0], respond);
      hide ReceiveAll, Receive;
      j := 0;
      k := FirstAppended(c, d, chunks, respond);
      assert chunks[0..k] == chunks[..k] && d.data + Concat(chunks[..k]) == Concat(chunks[..k]);
    case Bad =>
      assert Receive(c, chunks[0], respond) == Received(c, None);
      assert ReceiveAll(c, chunks, respond) == ReceiveAll(c, chunks[1..], respond);
      hide ReceiveAll, Receive;
      j, k, d := FirstMessage(c, chunks[1..], respond);
      assert chunks[1..][j..k] == chunks[j + 1..k + 1] && chunks[1..][k..] == chunks[k + 1..];
      j, k := j + 1, k + 1;
    case Undefined => assert false;
  }

  // No request is another one with more after it.
  lemma NotExtended(r: Request, s: Request, more: string)
    requires IsRequest(r) && IsRequest(s) && Whole(s) == Whole(r) + more
    ensures more == ""
  {
    hide HasNl, DeclaredLength, Split, SplitNl;
    IndexOfPrefix(r.head, r.body + more, END_OF_HEAD);
    IndexOfPrefix(s.head, s.body, END_OF_HEAD);
    ThreeParts(r.head, r.body, more);
    assert r.head == (r.head + (r.body + more))[..|r.head|] == (s.head + s.body)[..|s.head|] == s.head;
  }

  /** An unanswered message stays, and the next chunk is handed over glued to it. */
  lemma UnansweredMessageGlues(c: Context, next: seq<string>, respond: Responder)
    requires c.data != "" && c.bytesExpected <= |c.data| && next != [] && next[0] != ""
    ensures var messages := ReceiveAll(c, next, respond).messages;
            messages != [] && messages[0] == c.data + next[0]
  {
    AppendedNext(c, next[0], respond);
    AppendFirst(c, c, next, respond);
    hide ReceiveAll, Receive, Append, HandOver, After;
    HandedOver(c.data + next[0], ReceiveAll(After(c, c.data + next[0], respond), next[1..], respond));
  }

  // After an unanswered request the messages are not the other requests.
  lemma GluedDiffers(r: Request, rest: seq<Request>, c: Context, next: seq<string>, respond: Responder)
    requires IsRequest(r) && AllRequests(rest) && rest != []
    requires c.data == Whole(r) && c.bytesExpected <= |Whole(r)| && NonEmpty(next)
    ensures ReceiveAll(c, next, respond).messages != Wholes(rest)
  {
    assert |Whole(r)| >= 4;
    hide IsRequest, ReceiveAll;
    if next == [] {
      NothingMore(c, respond);
    } else {
      UnansweredMessageGlues(c, next, respond);
      if Whole(r) + next[0] == Whole(rest[0]) {
        NotExtended(r, rest[0], next[0]);
      }
    }
  }

  lemma SameFirst(m: string, a: seq<string>, n: string, b: seq<string>)
    ensures [m] + a == [n] + b <==> m == n && a == b
  {
    assert ([m] + a)[1..] == a && ([n] + b)[1..] == b && ([m] + a)[0] == m && ([n] + b)[0] == n;
  }

  // Where the text of a stream goes: dropped, into the first message, or later.
  lemma ThreeStretches(chunks: seq<string>, j: nat, k: nat)
    requires j <= k <= |chunks|
    ensures |Concat(chunks)| == |Concat(chunks[..j])| + |Concat(chunks[j..k])| + |Concat(chunks[k..])|
  {
    hide Concat;
    ConcatSplit(chunks, j);
    ConcatSplit(chunks[j..], k - j);
    assert chunks[j..][..k - j] == chunks[j..k] && chunks[j..][k - j..] == chunks[k..];
  }

  lemma AnsweredFirst(rs: seq<Request>, respond: Responder)
    requires rs != []
    ensures AllButLastAnswered(rs, respond) <==>
            |rs| == 1 || (respond(Whole(rs[0])) != "" && AllButLastAnswered(rs[1..], respond))
    ensures AllButLastAnswered([], respond)
  {
    if |rs| > 1 && respond(Whole(rs[0])) != "" && AllButLastAnswered(rs[1..], respond) {
      forall i | 0 <= i < |rs| - 1 ensures respond(Whole(rs[i])) != "" {
        if i > 0 {
          assert rs[1..][i - 1] == rs[i];
        }
      }
    }
  }

  /** Requests that are handed over each once and in order took no more text than came in, all
      but the last were answered, and if they took all of it the chunks are grouped. */
  lemma {:induction false} HandedOverIsGrouped(c: Context, chunks: seq<string>, rs: seq<Request>, respond: Responder)
    requires c.data == "" && NonEmpty(chunks) && AllRequests(rs)
    requires ReceiveAll(c, chunks, respond).messages == Wholes(rs)
    ensures |Concat(Wholes(rs))| <= |Concat(chunks)| && AllButLastAnswered(rs, respond)
    ensures |Concat(Wholes(rs))| == |Concat(chunks)| ==> Grouped(Wholes(rs), chunks)
    decreases |rs|
  {
    hide ReceiveAll, Served, After, AllButLastAnswered, IsRequest;
    if rs == [] {
      NoneUnanswered(respond);
      SomeText(chunks);
    } else {
      var j, k, d := FirstMessage(c, chunks, respond);
      var m, rest := Concat(chunks[j..k]), rs[1..];
      var d' := After(d, m, respond);
      SameFirst(m, ReceiveAll(d', chunks[k..], respond).messages, Whole(rs[0]), Wholes(rest));
      AnsweredFirst(rs, respond);
      AfterIs(d, m, respond);
      ThreeStretches(chunks, j, k);
      if rest != [] && respond(m) == "" {
        GluedDiffers(rs[0], rest, d', chunks[k..], respond);
      }
      if respond(m) != "" {
        HandedOverIsGrouped(d', chunks[k..], rest, respond);
      }
      hide Concat;
      FirstGroup(chunks, j, k, rs);
    }
  }

  lemma NoneUnanswered(respond: Responder)
    ensures AllButLastAnswered([], respond)
  {
  }

  lemma AfterIs(d: Context, m: string, respond: Responder)
    ensures After(d, m, respond) == d.(data := if respond(m) == "" then m else "")
  {
  }

  // When nothing is dropped, the group of the first message is the first group.
  lemma FirstGroup(chunks: seq<string>, j: nat, k: nat, rs: seq<Request>)
    requires NonEmpty(chunks) && rs != [] && j < k <= |chunks|
    requires Concat(chunks[j..k]) == Whole(rs[0]) && Served(chunks[j..k])
    requires rs[1..] == [] ||
             (|Concat(Wholes(rs[1..]))| <= |Concat(chunks[k..])| &&
              (|Concat(Wholes(rs[1..]))| == |Concat(chunks[k..])| ==> Grouped(Wholes(rs[1..]), chunks[k..])))
    ensures |Concat(Wholes(rs))| <= |Concat(chunks)|
    ensures |Concat(Wholes(rs))| == |Concat(chunks)| ==> Grouped(Wholes(rs), chunks)
  {
    hide Served;
    ThreeStretches(chunks, j, k);
    var rest := Wholes(rs[1..]);
    assert Wholes(rs)[0] == Whole(rs[0]) && Wholes(rs)[1..] == rest;
    assert |Concat(Wholes(rs))| == |Whole(rs[0])| + |Concat(rest)|;
    SomeText(chunks[..j]);
    SomeText(chunks[k..]);
    if |Concat(Wholes(rs))| == |Concat(chunks)| {
      assert j == 0 && chunks[0..k] == chunks[..k];
      assert Grouped(rest, chunks[k..]);
    }
  }

  lemma {:induction false} GroupedIsHandedOver(c: Context, chunks: seq<string>, rs: seq<Request>, respond: Responder)
    requires c.data == "" && NonEmpty(chunks) && Grouped(Wholes(rs), chunks) && AllButLastAnswered(rs, respond)
    ensures ReceiveAll(c, chunks, respond).messages == Wholes(rs)
    decreases |rs|
  {
    hide ReceiveAll, Served, After, AllButLastAnswered, Concat;
    if rs == [] {
      NothingMore(c, respond);
    } else {
      var k :|
        && 0 < k <= |chunks| && Concat(chunks[..k]) == Wholes(rs)[0] && Served(chunks[..k])
        && Grouped(Wholes(rs)[1..], chunks[k..]);
      var m := Whole(rs[0]);
      var d := ServedReceives(c, chunks[..k], respond);
      AnsweredFirst(rs, respond);
      AfterIs(d, m, respond);
      ReceiveConcat(c, chunks[..k], chunks[k..], respond);
      assert chunks[..k] + chunks[k..] == chunks && Wholes(rs)[1..] == Wholes(rs[1..]);
      if |rs| == 1 {
        assert chunks[k..] == [];
        NothingMore(After(d, m, respond), respond);
      } else {
        GroupedIsHandedOver(After(d, m, respond), chunks[k..], rs[1..], respond);
      }
    }
  }

  /** However the stream of a connection is cut into chunks: the messages handed over are the
      requests, each once and in order, if and only if the chunks fall into groups, one for
      each request, whose first decodes and makes a length expected that ends in the last, and
      every request but the last is answered. */
  lemma StreamIff(c: Context, chunks: seq<string>, rs: seq<Request>, respond: Responder)
    requires c.data == "" && NonEmpty(chunks) && AllRequests(rs) && Concat(chunks) == Concat(Wholes(rs))
    ensures ReceiveAll(c, chunks, respond).messages == Wholes(rs) <==>
            Grouped(Wholes(rs), chunks) && AllButLastAnswered(rs, respond)
  {
    hide ReceiveAll, Grouped, AllButLastAnswered, Concat;
    if ReceiveAll(c, chunks, respond).messages == Wholes(rs) {
      HandedOverIsGrouped(c, chunks, rs, respond);
    }
    if Grouped(Wholes(rs), chunks) && AllButLastAnswered(rs, respond) {
      GroupedIsHandedOver(c, chunks, rs, respond);
    }
  }

  // ---- streams in which no head is cut ----

  /** Where the i-th request starts in the stream. */
  function Start(rs: seq<Request>, i: nat): nat
    requires i <= |rs|
    decreases i
  {
    if i == 0 then 0 else |Whole(rs[0])| + Start(rs[1..], i - 1)
  }

  /** No chunk ends inside a head. */
  ghost predicate HeadsUncut(rs: seq<Request>, chunks: seq<string>) {
    forall i, k :: 0 <= i < |rs| && 0 <= k <= |chunks| ==>
      !(Start(rs, i) < |Concat(chunks[..k])| < Start(rs, i) + |rs[i].head|)
  }

  /** Every request ends where a chunk ends. */
  ghost predicate Aligned(messages: seq<string>, chunks: seq<string>) {
    if messages == [] then chunks == []
    else
      exists k ::
        0 < k <= |chunks| && Concat(chunks[..k]) == messages[0] && Aligned(messages[1..], chunks[k..])
  }

  lemma {:induction false} GroupedIsAligned(messages: seq<string>, chunks: seq<string>)
    requires Grouped(messages, chunks)
    ensures Aligned(messages, chunks)
    decreases |messages|
  {
    hide Served, Concat;
    if messages != [] {
      var k :|
        && 0 < k <= |chunks| && Concat(chunks[..k]) == messages[0] && Served(chunks[..k])
        && Grouped(messages[1..], chunks[k..]);
      GroupedIsAligned(messages[1..], chunks[k..]);
    }
  }

  lemma UncutFirst(rs: seq<Request>, chunks: seq<string>)
    requires rs != [] && chunks != [] && NonEmpty(chunks) && HeadsUncut(rs, chunks)
    ensures |chunks[0]| >= |rs[0].head|
  {
    assert chunks[..1] == [chunks[0]];
    OneChunk(chunks[..1]);
    assert Start(rs, 0) == 0 && |Concat(chunks[..1])| > 0;
  }

  lemma UncutRest(rs: seq<Request>, chunks: seq<string>, k: nat)
    requires rs != [] && HeadsUncut(rs, chunks) && k <= |chunks| && Concat(chunks[..k]) == Whole(rs[0])
    ensures HeadsUncut(rs[1..], chunks[k..])
  {
    var more, later := rs[1..], chunks[k..];
    hide Concat;
    forall i, l | 0 <= i < |more| && 0 <= l <= |later|
      ensures !(Start(more, i) < |Concat(later[..l])| < Start(more, i) + |more[i].head|)
    {
      ConcatSplit(chunks[..k + l], k);
      assert chunks[..k + l][..k] == chunks[..k] && chunks[..k + l][k..] == later[..l];
      assert Start(rs, i + 1) == |Whole(rs[0])| + Start(more, i) && rs[i + 1] == more[i];
    }
  }

  lemma {:induction false} AlignedIsGrouped(rs: seq<Request>, chunks: seq<string>)
    requires AllRequests(rs) && (forall i :: 0 <= i < |rs| ==> !HasNl(rs[i].body))
    requires NonEmpty(chunks) && HeadsUncut(rs, chunks) && Aligned(Wholes(rs), chunks)
    ensures Grouped(Wholes(rs), chunks)
    decreases |rs|
  {
    hide Served, Concat, HasNl, HeadsUncut, IsHead, DeclaredLength;
    if rs != [] {
      var k :|
        0 < k <= |chunks| && Concat(chunks[..k]) == Wholes(rs)[0] && Aligned(Wholes(rs)[1..], chunks[k..]);
      assert Wholes(rs)[1..] == Wholes(rs[1..]);
      UncutFirst(rs, chunks);
      assert SplitRequest(rs[0].head, rs[0].body, chunks[..k]);
      SplitIsServed(rs[0].head, rs[0].body, chunks[..k]);
      UncutRest(rs, chunks, k);
      AlignedIsGrouped(rs[1..], chunks[k..]);
    }
  }

  /** Over a connection whose chunks cut no head, and whose bodies hold no line break, the
      requests are handed over each once and in order if and only if every one ends where a
      chunk ends and every one but the last is answered. */
  lemma ConnectionIff(c: Context, chunks: seq<string>, rs: seq<Request>, respond: Responder)
    requires c.data == "" && NonEmpty(chunks) && AllRequests(rs) && Concat(chunks) == Concat(Wholes(rs))
    requires HeadsUncut(rs, chunks) && forall i :: 0 <= i < |rs| ==> !HasNl(rs[i].body)
    ensures ReceiveAll(c, chunks, respond).messages == Wholes(rs) <==>
            Aligned(Wholes(rs), chunks) && AllButLastAnswered(rs, respond)
  {
    StreamIff(c, chunks, rs, respond);
    hide ReceiveAll, Grouped, Aligned, AllButLastAnswered, Concat, HasNl, HeadsUncut;
    if Aligned(Wholes(rs), chunks) {
      AlignedIsGrouped(rs, chunks);
    }
    if Grouped(Wholes(rs), chunks) {
      GroupedIsAligned(Wholes(rs), chunks);
    }
  }

  lemma ReceiveFirst(c: Context, chunks: seq<string>, respond: Responder)
    requires chunks != []
    ensures var r, all := Receive(c, chunks[0], respond), ReceiveAll(c, chunks, respond);
            if r.Stuck? then all.stuck else all == HandOver(r.message, ReceiveAll(r.context, chunks[1..], respond))
  {
    hide Receive;
  }

  lemma HandOverConcat(message: Option<string>, s: Session, t: Session)
    ensures HandOver(message, t.(messages := s.messages + t.messages)) ==
            t.(messages := HandOver(message, s).messages + t.messages)
  {
    if message.Some? {
      assert [message.value] + (s.messages + t.messages) == [message.value] + s.messages + t.messages;
    }
  }

  lemma {:induction false} ReceiveConcat(c: Context, a: seq<string>, b: seq<string>, respond: Responder)
    requires !ReceiveAll(c, a, respond).stuck
    ensures var first := ReceiveAll(c, a, respond);
            var second := ReceiveAll(first.context, b, respond);
            ReceiveAll(c, a + b, respond) == second.(messages := first.messages + second.messages)
    decreases |a|
  {
    hide Receive, HandOver, ReceiveAll;
    if a == [] {
      NothingReceived(c, b, respond);
    } else {
      ReceiveFirst(c, a, respond);
      ReceiveFirst(c, a + b, respond);
      var r := Receive(c, a[0], respond);
      ReceiveConcat(r.context, a[1..], b, respond);
      var first := ReceiveAll(r.context, a[1..], respond);
      HandOverConcat(r.message, first, ReceiveAll(first.context, b, respond));
      assert (a + b)[1..] == a[1..] + b;
    }
  }

  lemma NothingReceived(c: Context, b: seq<string>, respond: Responder)
    ensures ReceiveAll(c, [], respond) == Session(c, [], false) && [] + b == b
    ensures [] + ReceiveAll(c, b, respond).messages == ReceiveAll(c, b, respond).messages
  {
  }
}
