/** Parsing the configuration text that was written from the fields. */
module VpnConfigRoundTrip {
  import opened Common
  import opened Strings
  import opened VpnConfig

  /** What the setters keep, and that a remote was set: the fields can be written. */
  predicate Complete(c: Config) {
    && c.text == "" && c.dev != NoneDev
    && ValidRemote(c.remote) && 0 < c.remotePort <= 65535 && c.remoteProto != NoneProto
    && (c.fallbackEnabled ==>
          ValidRemote(c.fallbackRemote) && 0 < c.fallbackRemotePort <= 65535 && c.fallbackRemoteProto != NoneProto)
  }

  /** The fields that the text carries; a fresh object for the others. */
  function Written(c: Config): Config {
    var primary := CLEAR.(
      valid := true, compEnabled := c.compEnabled, dev := c.dev,
      remote := c.remote, remotePort := c.remotePort, remoteProto := c.remoteProto);
    var both :=
      if c.fallbackEnabled then
        primary.(fallbackEnabled := true, fallbackRemote := c.fallbackRemote,
                 fallbackRemotePort := c.fallbackRemotePort, fallbackRemoteProto := c.fallbackRemoteProto)
      else primary;
    match c.authType
    case NoneAuth => both.(caPath := c.caPath, certPath := c.certPath, keyPath := c.keyPath, p12Path := c.p12Path)
    case UserpassAuth => both.(caPath := c.caPath)
    case CertificateAuth => both.(certPath := c.certPath, keyPath := c.keyPath, p12Path := c.p12Path)
    case CertificateUserpassAuth => both.(certPath := c.certPath, keyPath := c.keyPath, p12Path := c.p12Path)
    case OtherAuth => both
  }

  predicate Clean(path: string) {
    '"' !in path && '\n' !in path
  }

  predicate CleanPaths(c: Config) {
    Clean(c.caPath) && Clean(c.certPath) && Clean(c.keyPath) && Clean(c.p12Path)
  }

  // ---- words of a line ----

  lemma {:induction false} WordsPlain(w: string)
    requires ' ' !in w
    ensures Words(w) == [w]
  {
    if w != "" {
      WordsPlain(w[1..]);
      assert [w[0]] + w[1..] == w;
    }
  }

  lemma {:induction false} WordsKeyed(key: string, arg: string)
    requires ' ' !in key && arg != "" && arg[0] != ' ' && Quotes(arg) % 2 == 0
    ensures Words(key + " " + arg) == [key] + Words(arg)
  {
    var s := key + " " + arg;
    if key == "" {
      assert s[1..] == arg;
    } else {
      WordsKeyed(key[1..], arg);
      assert s[1..] == key[1..] + " " + arg;
      assert [key[0]] + key[1..] == key;
    }
  }

  lemma {:induction false} WordsInQuotes(path: string)
    requires '"' !in path
    ensures Quotes(path + "\"") == 1
    ensures Words(path + "\"") == [path + "\""]
  {
    var s := path + "\"";
    if path == "" {
      assert s == "\"" && s[1..] == "" && [s[0]] + "" == s;
    } else {
      WordsInQuotes(path[1..]);
      assert s[1..] == path[1..] + "\"";
      assert [s[0]] + s[1..] == s;
    }
  }

  lemma {:induction false} NoQuotes(w: string)
    requires '"' !in w
    ensures Quotes(w) == 0
  {
    if w != "" {
      NoQuotes(w[1..]);
    }
  }

  lemma QuotedWords(path: string)
    requires '"' !in path
    ensures Quotes("\"" + path + "\"") == 2
    ensures Words("\"" + path + "\"") == ["\"" + path + "\""]
    ensures Remove("\"" + path + "\"", '"') == path
  {
    hide Quotes, Words, Remove;
    var tail := path + "\"";
    WordsInQuotes(path);
    ThreeParts("\"", path, "\"");
    OpeningQuote(tail);
    assert "\"" == ['"'];
    RemoveFromQuoted(path, '"');
  }

  lemma OpeningQuote(tail: string)
    ensures Quotes("\"" + tail) == 1 + Quotes(tail)
    ensures Words(tail) == [tail] ==> Words("\"" + tail) == ["\"" + tail]
  {
    assert ("\"" + tail)[1..] == tail && ("\"" + tail)[0] == '"';
  }

  lemma PathWords(key: string, path: string)
    requires key != "" && ' ' !in key && !IsSpace(key[0]) && '"' !in path
    ensures Words(Trimmed(key + " \"" + path + "\"")) == [key, "\"" + path + "\""]
  {
    hide Words, Trimmed, Quotes;
    var arg := "\"" + path + "\"";
    QuotedWords(path);
    var line := key + " \"" + path + "\"";
    assert line == key + " " + arg;
    WordsKeyed(key, arg);
    assert line[0] == key[0] && line[|line| - 1] == '"';
    TrimmedIs(line);
  }

  lemma PlainWords(key: string, arg: string)
    requires key != "" && ' ' !in key && !IsSpace(key[0])
    requires arg != "" && ' ' !in arg && '"' !in arg && !IsSpace(arg[|arg| - 1])
    ensures Words(Trimmed(key + " " + arg)) == [key, arg]
  {
    var line := key + " " + arg;
    assert line[0] == key[0] && line[|line| - 1] == arg[|arg| - 1];
    TrimmedIs(line);
    NoQuotes(arg);
    WordsKeyed(key, arg);
    WordsPlain(arg);
  }

  lemma PlainWord(key: string)
    requires key != "" && ' ' !in key && !IsSpace(key[0]) && !IsSpace(key[|key| - 1])
    ensures Words(Trimmed(key)) == [key]
  {
    TrimmedIs(key);
    WordsPlain(key);
  }

  // ---- words of a remote line ----

  lemma {:induction false} SpaceSplitAfter(head: string, tail: string)
    requires forall i :: 0 <= i < |head| ==> !IsSpace(head[i])
    ensures SpaceSplit(head + " " + tail) == [head] + SpaceSplit(tail)
  {
    var s := head + " " + tail;
    if head == "" {
      assert s[1..] == tail;
    } else {
      SpaceSplitAfter(head[1..], tail);
      assert s[1..] == head[1..] + " " + tail;
      assert [head[0]] + head[1..] == head;
    }
  }

  lemma {:induction false} SpaceSplitWhole(s: string)
    requires forall i :: 0 <= i < |s| ==> !IsSpace(s[i])
    ensures SpaceSplit(s) == [s]
  {
    if s != "" {
      SpaceSplitWhole(s[1..]);
      assert [s[0]] + s[1..] == s;
    }
  }

  lemma {:induction false} SplitCovers(s: string, sep: char, i: nat)
    requires i < |s| && s[i] != sep
    ensures exists k, j :: 0 <= k < |Split(s, sep)| && 0 <= j < |Split(s, sep)[k]| && Split(s, sep)[k][j] == s[i]
  {
    var parts, rest := Split(s, sep), Split(s[1..], sep);
    if i == 0 {
      assert parts[0][0] == s[0];
    } else {
      SplitCovers(s[1..], sep, i - 1);
      var k, j :| 0 <= k < |rest| && 0 <= j < |rest[k]| && rest[k][j] == s[i];
      if s[0] == sep {
        assert parts[k + 1][j] == s[i];
      } else if k == 0 {
        assert parts[0][j + 1] == s[i];
      } else {
        assert parts[k][j] == s[i];
      }
    }
  }

  lemma RemoteHasNoSpace(remote: string)
    requires ValidRemote(remote)
    ensures remote != ""
    ensures forall i :: 0 <= i < |remote| ==> !IsSpace(remote[i])
  {
    assert !ValidRemote("") by {
      assert Split("", '.')[0] == "";
    }
    forall i | 0 <= i < |remote| ensures !IsSpace(remote[i]) {
      if remote[i] != '.' {
        SplitCovers(remote, '.', i);
      }
    }
  }

  predicate Spaceless(s: string) {
    forall i :: 0 <= i < |s| ==> !IsSpace(s[i])
  }

  lemma FourWords(a: string, b: string, c: string, d: string)
    requires Spaceless(a) && Spaceless(b) && Spaceless(c) && Spaceless(d)
    ensures SpaceSplit(a + " " + b + " " + c + " " + d) == [a, b, c, d]
  {
    hide SpaceSplit, IsSpace;
    SpaceSplitWhole(d);
    SpaceSplitAfter(c, d);
    SpaceSplitAfter(b, c + " " + d);
    SpaceSplitAfter(a, b + " " + (c + " " + d));
    Regroup(a + " " + b, c, d);
    Regroup(a, b, c + " " + d);
  }

  lemma Regroup(a: string, b: string, c: string)
    ensures a + " " + b + " " + c == a + " " + (b + " " + c)
  {
    ThreeParts(a + " ", b, " ");
    ThreeParts(a + " ", b + " ", c);
  }

  lemma RemoteWords(remote: string, port: int, proto: Proto)
    requires ValidRemote(remote) && 0 < port <= 65535 && proto != NoneProto
    ensures SpaceSplit(RemoteLine(remote, port, proto)) == ["remote", remote, Number(port), ProtoToStr(proto)]
  {
    RemoteHasNoSpace(remote);
    NumberReads(port);
    assert Spaceless("remote") && Spaceless(remote) && Spaceless(Number(port)) && Spaceless(ProtoToStr(proto));
    hide SpaceSplit, ValidRemote, ProtoToStr, Number;
    FourWords("remote", remote, Number(port), ProtoToStr(proto));
    assert "remote " == "remote" + " ";
  }

  lemma RemoteLineIsLine(remote: string, port: int, proto: Proto)
    requires ValidRemote(remote) && 0 < port <= 65535
    ensures '\n' !in RemoteLine(remote, port, proto)
  {
    RemoteHasNoSpace(remote);
    NumberReads(port);
    hide ValidRemote;
    assert '\n' !in remote && '\n' !in Number(port) && '\n' !in ProtoToStr(proto);
    assert '\n' !in "remote " && '\n' !in " ";
  }

  // ---- lines of the file ----

  lemma DirectiveLine(c: Config, line: string, rest: seq<string>, count: nat)
    requires Words(Trimmed(line))[0] != "<connection>"
    requires Directive(c, Words(Trimmed(line))[0], Words(Trimmed(line))[1..]).ok
    ensures ParseLines(c, [line] + rest, count) ==
            ParseLines(Directive(c, Words(Trimmed(line))[0], Words(Trimmed(line))[1..]).c, rest, count)
  {
    assert ([line] + rest)[1..] == rest;
  }

  function WithPath(c: Config, key: string, path: string): Config {
    if path == "" then c
    else if key == "ca" then c.(caPath := path)
    else if key == "cert" then c.(certPath := path)
    else if key == "key" then c.(keyPath := path)
    else c.(p12Path := path)
  }

  lemma PathLineParses(c: Config, key: string, path: string, rest: seq<string>, count: nat)
    requires key in {"ca", "cert", "key", "pkcs12"} && Clean(path)
    ensures ParseLines(c, PathLine(key, path) + rest, count) == ParseLines(WithPath(c, key, path), rest, count)
  {
    hide ParseLines, Words, Trimmed, Remove, Quotes;
    if path == "" {
      assert [] + rest == rest;
    } else {
      PathWords(key, path);
      QuotedWords(path);
      DirectiveLine(c, key + " \"" + path + "\"", rest, count);
    }
  }

  lemma HeadLinesParse(c: Config, rest: seq<string>)
    requires c.dev != NoneDev
    ensures ParseLines(CLEAR, HeadLines(c) + rest, 0)
            == ParseLines(CLEAR.(compEnabled := c.compEnabled, dev := c.dev), rest, 0)
  {
    hide ParseLines;
    var comp := if c.compEnabled then "comp-lzo" else "comp-lzo no";
    var dev := "dev " + DevToStr(c.dev);
    IgnoredLineParses(CLEAR, "client", ["nobind", comp, dev] + rest);
    IgnoredLineParses(CLEAR, "nobind", [comp, dev] + rest);
    CompLineParses(CLEAR, c.compEnabled, [dev] + rest);
    DevLineParses(CLEAR.(compEnabled := c.compEnabled), c.dev, rest);
    assert ["client", "nobind", comp, dev] + rest == ["client"] + (["nobind", comp, dev] + rest);
    assert ["nobind", comp, dev] + rest == ["nobind"] + ([comp, dev] + rest);
    assert [comp, dev] + rest == [comp] + ([dev] + rest);
  }

  lemma IgnoredLineParses(c: Config, line: string, rest: seq<string>)
    requires line in {"client", "nobind"}
    ensures ParseLines(c, [line] + rest, 0) == ParseLines(c, rest, 0)
  {
    hide ParseLines, Words, Trimmed;
    PlainWord(line);
    DirectiveLine(c, line, rest, 0);
  }

  lemma CompLineParses(c: Config, enabled: bool, rest: seq<string>)
    ensures ParseLines(c, [if enabled then "comp-lzo" else "comp-lzo no"] + rest, 0) ==
            ParseLines(c.(compEnabled := enabled), rest, 0)
  {
    hide ParseLines, Words, Trimmed;
    if enabled {
      PlainWord("comp-lzo");
      DirectiveLine(c, "comp-lzo", rest, 0);
    } else {
      PlainWords("comp-lzo", "no");
      assert "comp-lzo no" == "comp-lzo" + " " + "no";
      DirectiveLine(c, "comp-lzo no", rest, 0);
    }
  }

  lemma DevLineParses(c: Config, dev: Dev, rest: seq<string>)
    requires dev != NoneDev
    ensures ParseLines(c, ["dev " + DevToStr(dev)] + rest, 0) == ParseLines(c.(dev := dev), rest, 0)
  {
    hide ParseLines, Words, Trimmed;
    PlainWords("dev", DevToStr(dev));
    assert "dev " + DevToStr(dev) == "dev" + " " + DevToStr(dev);
    DirectiveLine(c, "dev " + DevToStr(dev), rest, 0);
  }

  // A connection block sets the primary remote, or the fallback when it is the second.
  lemma BlockParses(c: Config, remote: string, port: int, proto: Proto, rest: seq<string>, count: nat)
    requires ValidRemote(remote) && 0 < port <= 65535 && proto != NoneProto && count < 2
    ensures ParseLines(c, ["<connection>", RemoteLine(remote, port, proto), "</connection>"] + rest, count) ==
            ParseLines(if count == 0 then c.(remote := remote, remotePort := port, remoteProto := proto)
                       else c.(fallbackEnabled := true, fallbackRemote := remote,
                               fallbackRemotePort := port, fallbackRemoteProto := proto),
                       rest, count + 1)
  {
    var line := RemoteLine(remote, port, proto);
    var tokens := ["<connection>", line, "</connection>"] + rest;
    hide Words, Trimmed, SpaceSplit, RemoteLine, Number;
    PlainWord("<connection>");
    RemoteWords(remote, port, proto);
    NumberReads(port);
    NamesRoundTrip(proto, TapDev, "");
    assert SpaceSplit(line)[1..] == [remote, Number(port), ProtoToStr(proto)];
    assert tokens[3..] == rest;
  }

  lemma PathLinesParse(c: Config, d: Config, rest: seq<string>, count: nat)
    requires CleanPaths(Written(c)) && d.caPath == d.certPath == d.keyPath == d.p12Path == ""
    ensures ParseLines(d, PathLines(c) + rest, count) ==
            ParseLines(d.(caPath := Written(c).caPath, certPath := Written(c).certPath,
                          keyPath := Written(c).keyPath, p12Path := Written(c).p12Path), rest, count)
  {
    hide ParseLines, PathLine;
    var ca := if WritesCa(c.authType) then PathLine("ca", c.caPath) else [];
    var cert, key, p12 := PathLine("cert", c.certPath), PathLine("key", c.keyPath), PathLine("pkcs12", c.p12Path);
    var d1 := d.(caPath := Written(c).caPath);
    if WritesKeys(c.authType) {
      assert PathLines(c) + rest == ca + (cert + (key + (p12 + rest)));
      KeyLinesParse(d1, c.certPath, c.keyPath, c.p12Path, rest, count);
      if WritesCa(c.authType) {
        PathLineParses(d, "ca", c.caPath, cert + (key + (p12 + rest)), count);
      } else {
        assert ca + (cert + (key + (p12 + rest))) == cert + (key + (p12 + rest));
      }
    } else {
      assert PathLines(c) + rest == ca + rest;
      if WritesCa(c.authType) {
        PathLineParses(d, "ca", c.caPath, rest, count);
      } else {
        assert ca + rest == rest;
      }
    }
  }

  lemma KeyLinesParse(d: Config, cert: string, key: string, p12: string, rest: seq<string>, count: nat)
    requires Clean(cert) && Clean(key) && Clean(p12)
    requires d.certPath == d.keyPath == d.p12Path == ""
    ensures ParseLines(d, PathLine("cert", cert) + (PathLine("key", key) + (PathLine("pkcs12", p12) + rest)), count) ==
            ParseLines(d.(certPath := cert, keyPath := key, p12Path := p12), rest, count)
  {
    PathLineParses(d, "cert", cert, PathLine("key", key) + (PathLine("pkcs12", p12) + rest), count);
    PathLineParses(d.(certPath := cert), "key", key, PathLine("pkcs12", p12) + rest, count);
    PathLineParses(d.(certPath := cert, keyPath := key), "pkcs12", p12, rest, count);
  }

  /** The written lines parse to the written fields. */
  lemma FileLinesParse(c: Config)
    requires Complete(c) && CleanPaths(Written(c))
    ensures ParseLines(CLEAR, FileLines(c) + [""], 0) == Parsed(Written(c))
  {
    hide ParseLines, Words, Trimmed, ValidRemote, PathLines, RemoteLine;
    var tail := PathLines(c) + [""];
    var block := ["<connection>", RemoteLine(c.remote, c.remotePort, c.remoteProto), "</connection>"];
    var second :=
      if c.fallbackEnabled then
        ["<connection>", RemoteLine(c.fallbackRemote, c.fallbackRemotePort, c.fallbackRemoteProto), "</connection>"]
      else [];
    var head := HeadLines(c);
    assert FileLines(c) + [""] == head + (block + (second + tail));
    HeadLinesParse(c, block + (second + tail));
    var d := CLEAR.(compEnabled := c.compEnabled, dev := c.dev);
    BlockParses(d, c.remote, c.remotePort, c.remoteProto, second + tail, 0);
    d := d.(remote := c.remote, remotePort := c.remotePort, remoteProto := c.remoteProto);
    if c.fallbackEnabled {
      BlockParses(d, c.fallbackRemote, c.fallbackRemotePort, c.fallbackRemoteProto, tail, 1);
      d := d.(fallbackEnabled := true, fallbackRemote := c.fallbackRemote,
              fallbackRemotePort := c.fallbackRemotePort, fallbackRemoteProto := c.fallbackRemoteProto);
      PathLinesParse(c, d, [""], 2);
    } else {
      assert second + tail == tail;
      PathLinesParse(c, d, [""], 1);
    }
    RemoteNotEmpty(c.remote);
    EmptyLineFinishes(Written(c).(valid := false), if c.fallbackEnabled then 2 else 1);
  }

  lemma RemoteNotEmpty(remote: string)
    requires ValidRemote(remote)
    ensures remote != ""
  {
    RemoteHasNoSpace(remote);
  }

  lemma EmptyLineFinishes(c: Config, count: nat)
    ensures ParseLines(c, [""], count) == Finish(c)
  {
    assert Words(Trimmed("")) == [""];
    assert [""][1..] == [];
  }

  lemma FileLinesAreLines(c: Config)
    requires Complete(c) && CleanPaths(Written(c))
    ensures AreLines(FileLines(c))
  {
    hide RemoteLine, ValidRemote, PathLines, AreLines;
    var head := HeadLines(c);
    assert AreLines(head) by {
      HeadAreLines(c);
    }
    var first := ["<connection>", RemoteLine(c.remote, c.remotePort, c.remoteProto), "</connection>"];
    BlockAreLines(c.remote, c.remotePort, c.remoteProto);
    var second := if c.fallbackEnabled then
      ["<connection>", RemoteLine(c.fallbackRemote, c.fallbackRemotePort, c.fallbackRemoteProto), "</connection>"]
    else [];
    if c.fallbackEnabled {
      BlockAreLines(c.fallbackRemote, c.fallbackRemotePort, c.fallbackRemoteProto);
    }
    NoLines();
    PathLinesAreLines(c);
    MoreLines(head, first);
    MoreLines(head + first, second);
    MoreLines(head + first + second, PathLines(c));
  }

  lemma HeadAreLines(c: Config)
    ensures AreLines(HeadLines(c))
  {
  }

  lemma BlockAreLines(remote: string, port: int, proto: Proto)
    requires ValidRemote(remote) && 0 < port <= 65535
    ensures AreLines(["<connection>", RemoteLine(remote, port, proto), "</connection>"])
  {
    RemoteLineIsLine(remote, port, proto);
    hide RemoteLine, ValidRemote;
  }

  lemma NoLines()
    ensures AreLines([])
  {
  }

  lemma MoreLines(a: seq<string>, b: seq<string>)
    requires AreLines(a) && AreLines(b)
    ensures AreLines(a + b)
  {
  }

  predicate AreLines(lines: seq<string>) {
    forall i :: 0 <= i < |lines| ==> '\n' !in lines[i]
  }

  lemma PathLinesAreLines(c: Config)
    requires CleanPaths(Written(c))
    ensures AreLines(PathLines(c))
  {
  }

  // ---- the other direction: parsed paths never hold a quote or a line break ----

  lemma {:induction false} WordsChars(s: string, k: nat, c: char)
    requires k < |Words(s)| && c in Words(s)[k]
    ensures c in s
    decreases |s|
  {
    if s != "" {
      if s[0] == ' ' && Quotes(s) % 2 == 0 {
        WordsChars(SkipBlanks(s[1..]), k - 1, c);
        SkipBlanksChars(s[1..], c);
      } else {
        var rest := Words(s[1..]);
        if k > 0 || c in rest[0] {
          WordsChars(s[1..], k, c);
        }
      }
    }
  }

  lemma {:induction false} SkipBlanksChars(s: string, c: char)
    requires c in SkipBlanks(s)
    ensures c in s
  {
    if s != "" && s[0] == ' ' {
      SkipBlanksChars(s[1..], c);
    }
  }

  lemma PathDirectivePaths(c: Config, key: string, args: seq<string>)
    requires CleanPaths(c) && (|args| == 1 ==> '\n' !in args[0])
    ensures CleanPaths(PathDirective(c, key, args).c)
  {
  }

  lemma DirectivePaths(c: Config, key: string, args: seq<string>)
    requires CleanPaths(c) && (|args| == 1 ==> '\n' !in args[0])
    ensures CleanPaths(Directive(c, key, args).c)
  {
    PathDirectivePaths(c, key, args);
    hide DevFromStr, ProtoFromStr, Remote, PathDirective, Clean;
    if key == "remote" && args != [] {
      RemoteKeepsPaths(c, args);
    }
  }

  lemma DirectiveKeepsClean(c: Config, line: string)
    requires CleanPaths(c) && '\n' !in line
    ensures var w := Words(Trimmed(line)); CleanPaths(Directive(c, w[0], w[1..]).c)
  {
    var w := Words(Trimmed(line));
    if |w| == 2 && '\n' in w[1] {
      WordsChars(Trimmed(line), 1, '\n');
      TrimmedChars(line, '\n');
    }
    DirectivePaths(c, w[0], w[1..]);
  }

  lemma RemoteKeepsPaths(c: Config, args: seq<string>)
    requires args != [] && CleanPaths(c)
    ensures CleanPaths(Remote(c, args).c) && CleanPaths(FallbackRemote(c, args).c)
  {
    hide CleanPaths, Remote, FallbackRemote;
    RemoteSamePaths(c, args);
    FallbackRemoteSamePaths(c, args);
    SamePathsClean(c, Remote(c, args).c);
    SamePathsClean(c, FallbackRemote(c, args).c);
  }

  predicate SamePaths(c: Config, d: Config) {
    c.caPath == d.caPath && c.certPath == d.certPath && c.keyPath == d.keyPath && c.p12Path == d.p12Path
  }

  lemma SamePathsClean(c: Config, d: Config)
    requires SamePaths(c, d) && CleanPaths(c)
    ensures CleanPaths(d)
  {
  }

  lemma RemoteSamePaths(c: Config, args: seq<string>)
    requires args != []
    ensures SamePaths(c, Remote(c, args).c)
  {
    hide ValidRemote, ToInt, ProtoFromStr;
  }

  lemma FallbackRemoteSamePaths(c: Config, args: seq<string>)
    requires args != []
    ensures SamePaths(c, FallbackRemote(c, args).c)
  {
    hide ValidRemote, ToInt, ProtoFromStr;
  }

  lemma ConnectionKeepsPaths(c: Config, line: string, count: nat)
    requires CleanPaths(c)
    ensures CleanPaths(Connection(c, line, count).c)
  {
    hide SpaceSplit, Remote, FallbackRemote, CleanPaths;
    if |SpaceSplit(line)| > 1 {
      RemoteKeepsPaths(c, SpaceSplit(line)[1..]);
    }
  }

  lemma {:induction false} ParsedPathsClean(c: Config, tokens: seq<string>, count: nat)
    requires CleanPaths(c) && forall i :: 0 <= i < |tokens| ==> '\n' !in tokens[i]
    ensures CleanPaths(ParseLines(c, tokens, count).c)
    decreases |tokens|
  {
    if tokens != [] {
      var w := Words(Trimmed(tokens[0]));
      DirectiveKeepsClean(c, tokens[0]);
      if w[0] != "<connection>" {
        ParsedPathsClean(Directive(c, w[0], w[1..]).c, tokens[1..], count);
      } else if |tokens| > 2 {
        ConnectionKeepsPaths(c, tokens[1], count);
        ParsedPathsClean(Connection(c, tokens[1], count).c, tokens[3..], count + 1);
      }
    }
  }

  /** The text written from any complete configuration restores exactly the fields it
      carries if and only if no path it carries holds a quote or a line break. */
  lemma RestoredIffClean(c: Config)
    requires Complete(c)
    ensures FromString(CLEAR, FileText(c)) == Parsed(Written(c)) <==> CleanPaths(Written(c))
  {
    if CleanPaths(Written(c)) {
      FileLinesAreLines(c);
      SplitUndoesLines(FileLines(c));
      FileLinesParse(c);
    } else {
      var tokens := Split(FileText(c), '\n');
      forall i | 0 <= i < |tokens| ensures '\n' !in tokens[i] {
        if '\n' in tokens[i] {
          SplitParts(FileText(c), '\n', i, '\n');
        }
      }
      ParsedPathsClean(CLEAR, tokens, 0);
    }
  }

  /** Every line is taken without an error, and no block is left open. */
  predicate Consumes(c: Config, tokens: seq<string>, count: nat)
    decreases |tokens|
  {
    if tokens == [] then true
    else
      var w := Words(Trimmed(tokens[0]));
      if w[0] != "<connection>" then
        var p := Directive(c, w[0], w[1..]);
        p.ok && Consumes(p.c, tokens[1..], count)
      else
        && |tokens| > 2 && tokens[2] == "</connection>"
        && Connection(c, tokens[1], count).ok
        && Consumes(Connection(c, tokens[1], count).c, tokens[3..], count + 1)
  }

  predicate OpensBlock(line: string) {
    Words(Trimmed(line))[0] == "<connection>"
  }

  /** The parser runs past its lines if and only if the last line opens a block and every line
      before it is taken without an error. */
  lemma {:induction false} PastEndIff(c: Config, tokens: seq<string>, count: nat)
    ensures ParseLines(c, tokens, count).PastEnd? <==>
            && tokens != [] && OpensBlock(tokens[|tokens| - 1])
            && Consumes(c, tokens[..|tokens| - 1], count)
    decreases |tokens|
  {
    hide Directive, Connection, Words, Trimmed;
    if tokens != [] {
      var w, front := Words(Trimmed(tokens[0])), tokens[..|tokens| - 1];
      if w[0] != "<connection>" {
        var p := Directive(c, w[0], w[1..]);
        PastEndIff(p.c, tokens[1..], count);
        assert |tokens| > 1 ==> front[0] == tokens[0] && front[1..] == tokens[1..][..|tokens| - 2];
        assert |tokens| > 1 ==> tokens[1..][|tokens| - 2] == tokens[|tokens| - 1];
      } else if |tokens| > 2 {
        PastEndIff(Connection(c, tokens[1], count).c, tokens[3..], count + 1);
        assert front[0] == tokens[0] && front[1] == tokens[1];
        if |tokens| > 3 {
          assert front[2] == tokens[2] && front[3..] == tokens[3..][..|tokens| - 4];
          assert tokens[3..][|tokens| - 4] == tokens[|tokens| - 1];
        }
      }
    }
  }

  // ---- what the parser accepts can be written and read again ----

  /** What every field setter keeps, starting from a cleared object. */
  predicate Sound(c: Config) {
    && c.text == "" && c.authType == NoneAuth && c.dev != NoneDev
    && (c.remote != "" ==> ValidRemote(c.remote)) && 0 < c.remotePort <= 65535 && c.remoteProto != NoneProto
    && (c.fallbackEnabled ==> ValidRemote(c.fallbackRemote))
    && 0 < c.fallbackRemotePort <= 65535 && c.fallbackRemoteProto != NoneProto
  }

  lemma SettersKeepSound(c: Config, host: string, port: int, proto: Proto, dev: Dev)
    requires Sound(c)
    ensures SetDev(c, dev).Some? ==> Sound(SetDev(c, dev).value)
    ensures SetRemote(c, host).Some? ==> Sound(SetRemote(c, host).value)
    ensures SetRemotePort(c, port).Some? ==> Sound(SetRemotePort(c, port).value)
    ensures SetRemoteProto(c, proto).Some? ==> Sound(SetRemoteProto(c, proto).value)
    ensures SetFallbackRemotePort(c, port).Some? ==> Sound(SetFallbackRemotePort(c, port).value)
    ensures SetFallbackRemoteProto(c, proto).Some? ==> Sound(SetFallbackRemoteProto(c, proto).value)
    ensures SetFallbackRemote(c, host).Some? ==>
              Sound(SetFallbackRemote(c, host).value) && ValidRemote(SetFallbackRemote(c, host).value.fallbackRemote)
  {
    hide ValidRemote;
  }

  lemma RemoteKeepsSound(c: Config, args: seq<string>)
    requires args != [] && Sound(c)
    ensures Sound(Remote(c, args).c)
  {
    var port := if |args| >= 2 then ToInt(args[1]) else 0;
    var proto := if |args| >= 3 then ProtoFromStr(args[2]) else NoneProto;
    var p := Then(Progress(c, true), SetRemote(c, args[0]));
    var q := if |args| >= 2 then Then(p, SetRemotePort(p.c, port)) else p;
    SettersKeepSound(c, args[0], port, proto, NoneDev);
    SettersKeepSound(p.c, args[0], port, proto, NoneDev);
    hide Sound, SetRemote, SetRemotePort, SetRemoteProto, ToInt, ProtoFromStr;
    SettersKeepSound(q.c, args[0], port, proto, NoneDev);
  }

  lemma FallbackRemoteKeepsSound(c: Config, args: seq<string>)
    requires args != [] && Sound(c)
    ensures Sound(FallbackRemote(c, args).c)
  {
    hide Sound, SetFallbackRemote, SetFallbackRemotePort, SetFallbackRemoteProto, ValidRemote, ToInt, ProtoFromStr;
    var port := if |args| >= 2 then ToInt(args[1]) else 0;
    var proto := if |args| >= 3 then ProtoFromStr(args[2]) else NoneProto;
    var p := Then(Progress(c, true), SetFallbackRemote(c, args[0]));
    var q := if |args| >= 2 then Then(p, SetFallbackRemotePort(p.c, port)) else p;
    var r := if |args| >= 3 then Then(q, SetFallbackRemoteProto(q.c, proto)) else q;
    SettersKeepSound(c, args[0], port, proto, NoneDev);
    SettersKeepSound(p.c, args[0], port, proto, NoneDev);
    SettersKeepSound(q.c, args[0], port, proto, NoneDev);
    if r.ok {
      FallbackRemains(c, args);
      EnabledKeepsSound(r.c);
    }
  }

  lemma EnabledKeepsSound(c: Config)
    requires Sound(c) && ValidRemote(c.fallbackRemote)
    ensures Sound(c.(fallbackEnabled := true))
  {
  }

  lemma FallbackRemains(c: Config, args: seq<string>)
    requires args != [] && FallbackRemote(c, args).ok
    ensures ValidRemote(FallbackRemote(c, args).c.fallbackRemote)
  {
    hide ValidRemote, ToInt, ProtoFromStr;
  }

  lemma DirectiveKeepsSound(c: Config, key: string, args: seq<string>)
    requires Sound(c)
    ensures Sound(Directive(c, key, args).c)
  {
    if |args| == 1 {
      var dev, proto := DevFromStr(args[0]), ProtoFromStr(args[0]);
      SettersKeepSound(c, "", 0, proto, dev);
      SettersKeepSound(Then(Progress(c, true), SetRemoteProto(c, proto)).c, "", 0, proto, dev);
    }
    if args != [] {
      RemoteKeepsSound(c, args);
    }
    PathDirectiveKeepsSound(c, key, args);
    hide PathDirective, Sound, DevFromStr, ProtoFromStr, Remote, Remove, SetDev, SetRemoteProto, SetFallbackRemoteProto;
  }

  lemma PathDirectiveKeepsSound(c: Config, key: string, args: seq<string>)
    requires Sound(c)
    ensures Sound(PathDirective(c, key, args).c)
    ensures forall b :: Sound(c.(compEnabled := b))
  {
    hide ValidRemote, Remove;
  }

  lemma ConnectionKeepsSound(c: Config, line: string, count: nat)
    requires Sound(c)
    ensures Sound(Connection(c, line, count).c)
  {
    hide SpaceSplit, Remote, FallbackRemote, Sound;
    if |SpaceSplit(line)| > 1 {
      RemoteKeepsSound(c, SpaceSplit(line)[1..]);
      FallbackRemoteKeepsSound(c, SpaceSplit(line)[1..]);
    }
  }

  lemma {:induction false} ParsedIsSound(c: Config, tokens: seq<string>, count: nat)
    requires Sound(c) && ParseLines(c, tokens, count).Parsed?
    ensures Sound(ParseLines(c, tokens, count).c)
    ensures ParseLines(c, tokens, count).c.remote != "" && ParseLines(c, tokens, count).c.valid
    decreases |tokens|
  {
    hide Directive, Connection, Words, Trimmed, ValidRemote;
    if tokens != [] {
      var w := Words(Trimmed(tokens[0]));
      if w[0] != "<connection>" {
        DirectiveKeepsSound(c, w[0], w[1..]);
        ParsedIsSound(Directive(c, w[0], w[1..]).c, tokens[1..], count);
      } else {
        ConnectionKeepsSound(c, tokens[1], count);
        ParsedIsSound(Connection(c, tokens[1], count).c, tokens[3..], count + 1);
      }
    }
  }

  /** Every accepted text normalises: writing the configuration it parsed to and parsing that
      gives the same configuration, but for the fields of a fallback that is not enabled. */
  lemma AcceptedTextNormalises(s: string)
    requires FromString(CLEAR, s).Parsed?
    ensures var c := FromString(CLEAR, s).c;
            FromString(CLEAR, FileText(c)) ==
            Parsed(if c.fallbackEnabled then c
                   else c.(fallbackRemote := "", fallbackRemotePort := PORT_DEFAULT, fallbackRemoteProto := UdpProto))
  {
    var c, tokens := FromString(CLEAR, s).c, Split(s, '\n');
    forall i | 0 <= i < |tokens| ensures '\n' !in tokens[i] {
      if '\n' in tokens[i] {
        SplitParts(s, '\n', i, '\n');
      }
    }
    ParsedPathsClean(CLEAR, tokens, 0);
    ParsedIsSound(CLEAR, tokens, 0);
    hide ParseLines, FileText, ValidRemote;
    RestoredIffClean(c);
  }
}
