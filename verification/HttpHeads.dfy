/** What a head declares, read from its text. */
module HttpHeads {
  import opened Common
  import opened Strings
  import opened Http

  // ---- the text of a head ----

  const NL := "\r\n"

  function FieldText(fields: seq<string>): string {
    if fields == [] then "" else fields[0] + (NL + FieldText(fields[1..]))
  }

  /** The request line, the header lines, and the blank line after them. */
  function HeadText(line: string, fields: seq<string>): string {
    line + (NL + (FieldText(fields) + NL))
  }

  /** A line of a head: not empty, without line breaks and zero bytes. */
  predicate HeadLine(line: string) {
    line != "" && '\r' !in line && '\0' !in line
  }

  predicate HeadLines(lines: seq<string>) {
    forall i :: 0 <= i < |lines| ==> HeadLine(lines[i])
  }

  lemma NoNlIn(line: string)
    requires '\r' !in line
    ensures !HasNl(line)
  {
  }

  lemma {:induction false} SplitBeforeNl(line: string, rest: string)
    requires '\r' !in line
    ensures SplitNl(line + (NL + rest)) == [line] + SplitNl(rest)
  {
    var s := line + (NL + rest);
    if line == "" {
      assert s == NL + rest && StartsNl(s) && s[2..] == rest;
    } else {
      SplitBeforeNl(line[1..], rest);
      assert s[1..] == line[1..] + (NL + rest) && !StartsNl(s) && s[0] == line[0];
      assert [line[0]] + line[1..] == line;
    }
  }

  lemma {:induction false} SplitFields(fields: seq<string>, rest: string)
    requires HeadLines(fields)
    ensures SplitNl(FieldText(fields) + (NL + rest)) == fields + ([""] + SplitNl(rest))
  {
    hide SplitNl;
    if fields == [] {
      SplitBeforeNl("", rest);
      assert "" + (NL + rest) == NL + rest;
    } else {
      assert HeadLine(fields[0]) && HeadLines(fields[1..]);
      SplitFields(fields[1..], rest);
      var tail := FieldText(fields[1..]) + (NL + rest);
      ThreeParts(fields[0], NL + FieldText(fields[1..]), NL + rest);
      ThreeParts(NL, FieldText(fields[1..]), NL + rest);
      SplitBeforeNl(fields[0], tail);
      assert [fields[0]] + (fields[1..] + ([""] + SplitNl(rest))) == fields + ([""] + SplitNl(rest));
    }
  }

  /** A head falls into its request line and its header lines. */
  lemma SplitHead(line: string, fields: seq<string>)
    requires HeadLine(line) && HeadLines(fields)
    ensures SplitNl(HeadText(line, fields)) == [line] + fields + ["", ""]
  {
    hide SplitNl;
    SplitBeforeNl(line, FieldText(fields) + NL);
    SplitFields(fields, "");
    BlankSplits();
    assert NL + "" == NL;
    assert [line] + (fields + ([""] + [""])) == [line] + fields + ["", ""];
  }

  lemma BlankSplits()
    ensures SplitNl("") == [""]
  {
  }

  // ---- where a head ends ----

  // Without an empty line before it, the end of the head is found at its end.
  lemma {:induction false} EndAfterLine(line: string, rest: string)
    requires '\r' !in line && !StartsNl(rest) && IndexOf(rest, END_OF_HEAD) >= 0
    ensures IndexOf(line + (NL + rest), END_OF_HEAD) == |line| + 2 + IndexOf(rest, END_OF_HEAD)
  {
    hide IndexOf, StartsNl;
    var s := line + (NL + rest);
    if line == "" {
      assert s == NL + rest && s[1..] == "\n" + rest && s[1..][1..] == rest;
      NotEndHere(s, rest);
      assert s[1..][0] == '\n';
      NotCr(s[1..]);
      FoundLater(s);
    } else {
      EndAfterLine(line[1..], rest);
      assert s[1..] == line[1..] + (NL + rest) && s[0] == line[0];
      NotCr(s);
    }
  }

  lemma FoundLater(s: string)
    requires |s| >= 4 && s[..4] != END_OF_HEAD && IndexOf(s[1..], END_OF_HEAD) >= 0
    ensures IndexOf(s, END_OF_HEAD) == 1 + IndexOf(s[1..], END_OF_HEAD)
  {
  }

  lemma NotCr(s: string)
    requires s != "" && s[0] != '\r' && IndexOf(s[1..], END_OF_HEAD) >= 0
    ensures IndexOf(s, END_OF_HEAD) == 1 + IndexOf(s[1..], END_OF_HEAD)
  {
    ShortHasNone(s[1..]);
    assert END_OF_HEAD[0] == '\r';
    assert s[..4][0] == s[0];
  }

  lemma NotEndHere(s: string, rest: string)
    requires s == NL + rest && !StartsNl(rest) && IndexOf(rest, END_OF_HEAD) >= 0
    ensures |s| >= 4 && s[..4] != END_OF_HEAD
  {
    ShortHasNone(rest);
    assert s[2] == rest[0] && s[3] == rest[1];
    assert END_OF_HEAD[2] == '\r' && END_OF_HEAD[3] == '\n';
    assert s[..4][2] == s[2] && s[..4][3] == s[3];
  }

  lemma ShortHasNone(s: string)
    requires IndexOf(s, END_OF_HEAD) >= 0
    ensures |s| >= 4
  {
  }

  lemma {:induction false} EndOfFields(fields: seq<string>)
    requires HeadLines(fields) && fields != []
    ensures IndexOf(FieldText(fields) + NL, END_OF_HEAD) == |FieldText(fields)| - 2
    ensures !StartsNl(FieldText(fields) + NL) && |FieldText(fields)| >= 3
    decreases |fields|
  {
    var line, more := fields[0], FieldText(fields[1..]);
    assert HeadLine(line);
    ThreeParts(line, NL + more, NL);
    ThreeParts(NL, more, NL);
    assert FieldText(fields) + NL == line + (NL + (more + NL));
    assert (line + (NL + (more + NL)))[0] == line[0];
    if |fields| == 1 {
      assert more == "" && more + NL == NL;
      LastLine(line);
    } else {
      assert HeadLines(fields[1..]);
      EndOfFields(fields[1..]);
      EndAfterLine(line, more + NL);
    }
  }

  lemma {:induction false} LastLine(line: string)
    requires '\r' !in line
    ensures IndexOf(line + (NL + NL), END_OF_HEAD) == |line|
  {
    var s := line + (NL + NL);
    if line == "" {
      assert s == END_OF_HEAD && s[..4] == s;
    } else {
      LastLine(line[1..]);
      assert s[1..] == line[1..] + (NL + NL) && s[0] == line[0];
      NotCr(s);
    }
  }

  /** Such a text is a head when its request line has three words. */
  lemma HeadIsHead(line: string, fields: seq<string>)
    requires HeadLine(line) && HeadLines(fields) && |Split(line, ' ')| >= 3
    ensures IsHead(HeadText(line, fields))
  {
    var head := HeadText(line, fields);
    SplitHead(line, fields);
    if fields == [] {
      assert FieldText(fields) + NL == NL;
      LastLine(line);
    } else {
      EndOfFields(fields);
      EndAfterLine(line, FieldText(fields) + NL);
    }
    hide Split, SplitNl, IndexOf;
    NoNulInHead(line, fields);
    EndsInBlankLine(line, fields);
    assert ([line] + fields + ["", ""])[0] == line;
  }

  lemma {:induction false} NoNulInFields(fields: seq<string>)
    requires HeadLines(fields)
    ensures '\0' !in FieldText(fields)
  {
    if fields != [] {
      assert HeadLine(fields[0]) && HeadLines(fields[1..]);
      NoNulInFields(fields[1..]);
    }
  }

  lemma NoNulInHead(line: string, fields: seq<string>)
    requires HeadLine(line) && HeadLines(fields)
    ensures '\0' !in HeadText(line, fields)
  {
    NoNulInFields(fields);
  }

  lemma {:induction false} FieldsEndInNl(fields: seq<string>)
    requires fields != []
    ensures EndsInNl(FieldText(fields))
  {
    var s := FieldText(fields);
    if |fields| == 1 {
      assert s == fields[0] + (NL + "") && NL + "" == NL;
    } else {
      FieldsEndInNl(fields[1..]);
    }
  }

  lemma EndsInBlankLine(line: string, fields: seq<string>)
    ensures var head := HeadText(line, fields); |head| >= 4 && head[|head| - 4..] == END_OF_HEAD
  {
    var head := HeadText(line, fields);
    if fields != [] {
      FieldsEndInNl(fields);
      var f := FieldText(fields);
      assert head == line + (NL + (f + NL));
      assert head[|head| - 4..] == (f + NL)[|f| - 2..] == f[|f| - 2..] + NL;
    } else {
      assert head == line + (NL + NL) && head[|head| - 4..] == NL + NL;
    }
    assert NL + NL == END_OF_HEAD;
  }

  // ---- declared lengths ----

  /** The line is one header field of this name, in any case and with any blanks around it. */
  predicate Names(field: string, name: string) {
    |Split(field, ':')| == 2 && Lower(Trimmed(Split(field, ':')[0])) == name
  }

  lemma {:induction false} FieldsSkip(fields: seq<string>, name: string)
    requires forall i :: 0 <= i < |fields| ==> !Names(fields[i], name)
    ensures name !in ReadFields(fields)
  {
    hide Split, Lower, Trimmed;
    if fields != [] {
      FieldsSkip(fields[..|fields| - 1], name);
      assert !Names(fields[|fields| - 1], name);
    }
  }

  lemma {:induction false} LastFieldCounts(fields: seq<string>, k: nat, name: string)
    requires k < |fields| && Names(fields[k], name) && forall i :: k < i < |fields| ==> !Names(fields[i], name)
    ensures name in ReadFields(fields) && ReadFields(fields)[name] == Trimmed(Split(fields[k], ':')[1])
    decreases |fields|
  {
    hide Lower, Trimmed;
    var n := |fields| - 1;
    if k < n {
      LastFieldCounts(fields[..n], k, name);
      hide Split;
      assert !Names(fields[n], name);
    } else {
      assert fields[n] != "" by {
        BlankHasOnePart();
      }
      hide Split;
    }
  }

  lemma BlankHasOnePart()
    ensures |Split("", ':')| == 1
  {
  }

  const LENGTH := "content-length"

  lemma LengthKey()
    ensures Lower("content-Length") == LENGTH
  {
  }

  /** A header line that declares a body length of `n`. */
  ghost predicate Declares(field: string, n: nat) {
    exists name: string, value: string ::
      && field == name + ([':'] + value) && ':' !in name && ':' !in value
      && Lower(Trimmed(name)) == LENGTH && Trimmed(value) == Number(n)
  }

  lemma DeclaredParts(field: string, n: nat)
    requires Declares(field, n)
    ensures Names(field, LENGTH) && Trimmed(Split(field, ':')[1]) == Number(n)
  {
    var name: string, value: string :|
      && field == name + ([':'] + value) && ':' !in name && ':' !in value
      && Lower(Trimmed(name)) == LENGTH && Trimmed(value) == Number(n);
    ThreeParts(name, [':'], value);
    SplitAfter(name, ':', value);
    SplitWhole(value, ':');
    hide Split, Trimmed, Lower, Number;
  }

  /** The length that a head declares is that of the last such line, or none without one. */
  lemma LengthDeclared(line: string, fields: seq<string>, k: nat, n: nat)
    requires HeadLine(line) && HeadLines(fields)
    requires k < |fields| && Declares(fields[k], n) && n < 0x8000_0000
    requires forall i :: k < i < |fields| ==> !Names(fields[i], LENGTH)
    ensures DeclaredLength(HeadText(line, fields)) == n
  {
    DeclaredParts(fields[k], n);
    DeclaredFields(line, fields);
    LengthKey();
    var all := fields + [""];
    assert all[k] == fields[k];
    forall i | k < i < |all| ensures !Names(all[i], LENGTH) {
      if i == |fields| {
        BlankHasOnePart();
      } else {
        assert all[i] == fields[i];
      }
    }
    LastFieldCounts(all, k, LENGTH);
    NumberReads(n);
    TrimmedNumber(n);
    hide Split, Trimmed, Lower, Number, SplitNl, ReadFields, Names, AsText;
  }

  lemma TrimmedNumber(n: nat)
    ensures Trimmed(Number(n)) == Number(n)
  {
    NumberReads(n);
    hide Number;
    TrimmedIs(Number(n));
  }

  lemma NoLengthDeclared(line: string, fields: seq<string>)
    requires HeadLine(line) && HeadLines(fields) && forall i :: 0 <= i < |fields| ==> !Names(fields[i], LENGTH)
    ensures DeclaredLength(HeadText(line, fields)) == 0
  {
    DeclaredFields(line, fields);
    LengthKey();
    BlankIsZero();
    var all := fields + [""];
    forall i | 0 <= i < |all| ensures !Names(all[i], LENGTH) {
      if i == |fields| {
        BlankHasOnePart();
      } else {
        assert all[i] == fields[i];
      }
    }
    FieldsSkip(all, LENGTH);
    hide Split, Trimmed, Lower, SplitNl, ReadFields, Names, ToInt;
  }

  lemma DeclaredFields(line: string, fields: seq<string>)
    requires HeadLine(line) && HeadLines(fields)
    ensures DeclaredLength(HeadText(line, fields)) == ToInt(Get(ReadFields(fields + [""]), "content-Length"))
  {
    SplitHead(line, fields);
    var lines := [line] + fields + ["", ""];
    hide SplitNl, ReadFields, ToInt;
    assert lines[1..|lines| - 1] == fields + [""];
  }

  /** A first chunk with a whole head makes expected the length of the head and what its last
      Content-Length line declares, or the head alone; and it names method, URL and version. */
  lemma HeadMakesExpected(method': string, url: string, version: string, fields: seq<string>, part: string)
    requires ' ' !in method' && ' ' !in url && ' ' !in version && HeadLines(fields) && !HasNl(part)
    requires HeadLine(method' + [' '] + url + [' '] + version)
    ensures var head := HeadText(method' + [' '] + url + [' '] + version, fields);
            var d := DecodeHead(head + part);
            && IsHead(head) && d.Good? && Expected(d.headers) == |head| + DeclaredLength(head)
            && d.headers.httpMethod == method' && d.headers.url == url && d.headers.version == version
  {
    var line := method' + [' '] + url + [' '] + version;
    RequestLine(method', url, version);
    HeadIsHead(line, fields);
    var head := HeadText(line, fields);
    ChunkDecodes(head, part);
    HeadEndsInNl(head);
    NoNlInPrefix(Until(part, '\0'), part);
    LinesAfter(head, part);
    SplitHead(line, fields);
    hide Split, SplitNl, IndexOf, Until, HasNl, Expected, DeclaredLength, ReadFields, Extend;
    assert ([line] + fields + ["", ""])[0] == line;
  }

  /** A request whose head declares the length of its body is handed over once and whole,
      however the body is split. */
  lemma DeclaredReassembles(
    c: Context, line: string, fields: seq<string>, k: nat, body: string, chunks: seq<string>, respond: Responder)
    requires HeadLine(line) && HeadLines(fields) && |Split(line, ' ')| >= 3
    requires k < |fields| && Declares(fields[k], |body|) && |body| < 0x8000_0000
    requires forall i :: k < i < |fields| ==> !Names(fields[i], LENGTH)
    requires !HasNl(body) && c.data == "" && chunks != [] && NonEmpty(chunks)
    requires |chunks[0]| >= |HeadText(line, fields)| && Concat(chunks) == HeadText(line, fields) + body
    ensures ReceiveAll(c, chunks, respond).messages == [HeadText(line, fields) + body]
  {
    hide HeadText, Split, HasNl, IsHead, DeclaredLength, ReceiveAll, Declares, Names, Concat;
    HeadIsHead(line, fields);
    LengthDeclared(line, fields, k, |body|);
    Reassembles(c, HeadText(line, fields), body, chunks, respond);
  }

  /** Without such a line the head is handed over as soon as it is there. */
  lemma UndeclaredHeadGoes(c: Context, line: string, fields: seq<string>, respond: Responder)
    requires HeadLine(line) && HeadLines(fields) && |Split(line, ' ')| >= 3
    requires (forall i :: 0 <= i < |fields| ==> !Names(fields[i], LENGTH)) && c.data == ""
    ensures ReceiveAll(c, [HeadText(line, fields)], respond).messages == [HeadText(line, fields)]
  {
    hide Split, HasNl, IsHead, DeclaredLength, ReceiveAll, Names;
    var head := HeadText(line, fields);
    HeadIsHead(line, fields);
    NoLengthDeclared(line, fields);
    OneChunk([head]);
    assert |head| > 0;
    hide HeadText, Concat;
    NoNlIn("");
    assert head + "" == head && |""| == 0;
    Reassembles(c, head, "", [head], respond);
  }

  function PostHead(): (head: string)
    ensures head == "POST /a HTTP/1.1\r\nContent-Length: 5\r\n\r\n"
  {
    assert FieldText(["Content-Length: 5"]) == "Content-Length: 5" + (NL + "") by {
      assert ["Content-Length: 5"][1..] == [];
    }
    HeadText("POST /a HTTP/1.1", ["Content-Length: 5"])
  }

  /** A POST of five bytes whose head comes first and whose body follows. */
  lemma PostIsWhole(respond: Responder)
    ensures ReceiveAll(EMPTY, [PostHead(), "hello"], respond).messages == [PostHead() + "hello"]
  {
    hide ReceiveAll, Split, HasNl, Declares, Names, Concat, HeadText;
    var line, field, chunks := "POST /a HTTP/1.1", "Content-Length: 5", [PostHead(), "hello"];
    PostLine();
    PostDeclares();
    NoNlIn("hello");
    PostConcat(PostHead(), "hello");
    assert HeadLine(line) && HeadLine(field) && NonEmpty(chunks);
    DeclaredReassembles(EMPTY, line, [field], 0, "hello", chunks, respond);
  }

  lemma PostLine()
    ensures |Split("POST /a HTTP/1.1", ' ')| == 3
  {
    RequestLine("POST", "/a", "HTTP/1.1");
    assert "POST" + [' '] + "/a" + [' '] + "HTTP/1.1" == "POST /a HTTP/1.1";
  }

  lemma PostConcat(a: string, b: string)
    ensures Concat([a, b]) == a + b
  {
    assert [a, b][1..] == [b];
    OneChunk([b]);
  }

  lemma PostDeclares()
    ensures Declares("Content-Length: 5", 5)
  {
    assert "Content-Length" + ([':'] + " 5") == "Content-Length: 5";
    assert Lower(Trimmed("Content-Length")) == LENGTH by {
      TrimmedIs("Content-Length");
    }
    PostValue();
  }

  lemma PostValue()
    ensures Trimmed(" 5") == Number(5)
  {
    assert TrimLeft(" 5") == "5";
    TrimmedIs("5");
  }
}
