/** What each line of an OpenVPN configuration does, in any layout, and which hosts are valid. */
module VpnConfigLines {
  import opened Common
  import opened Strings
  import opened VpnConfig
  import opened VpnConfigRoundTrip
  import JsonText

  // ---- lines of plain words ----

  /** A word without white space and quotes. */
  predicate Plain(w: string) {
    w != "" && forall i :: 0 <= i < |w| ==> !IsSpace(w[i]) && w[i] != '"'
  }

  predicate AllPlain(words: seq<string>) {
    forall i :: 0 <= i < |words| ==> Plain(words[i])
  }

  function Blanks(n: nat): string {
    if n == 0 then "" else " " + Blanks(n - 1)
  }

  /** Words with `n` blanks more than one between any two. */
  function Spaced(words: seq<string>, n: nat): string
    requires words != []
  {
    if |words| == 1 then words[0] else words[0] + (" " + (Blanks(n) + Spaced(words[1..], n)))
  }

  lemma {:induction false} BlanksSkipped(n: nat, arg: string)
    requires arg != "" && arg[0] != ' '
    ensures SkipBlanks(Blanks(n) + arg) == arg && Quotes(Blanks(n) + arg) == Quotes(arg)
  {
    var s := Blanks(n) + arg;
    if n > 0 {
      BlanksSkipped(n - 1, arg);
      assert s[1..] == Blanks(n - 1) + arg && s[0] == ' ';
    } else {
      assert s == arg;
    }
  }

  /** Any run of blanks separates two words. */
  lemma {:induction false} WordsApart(key: string, n: nat, arg: string)
    requires ' ' !in key && arg != "" && arg[0] != ' ' && Quotes(arg) == 0
    ensures Words(key + (" " + (Blanks(n) + arg))) == [key] + Words(arg)
    decreases |key|
  {
    var tail := " " + (Blanks(n) + arg);
    var s := key + tail;
    BlanksSkipped(n, arg);
    if key == "" {
      assert s == tail && s[0] == ' ' && s[1..] == Blanks(n) + arg;
      assert Quotes(s) == Quotes(Blanks(n) + arg);
    } else {
      WordsApart(key[1..], n, arg);
      assert s[1..] == key[1..] + tail && s[0] == key[0];
      assert [key[0]] + key[1..] == key;
    }
  }

  lemma {:induction false} QuotesConcat(a: string, b: string)
    ensures Quotes(a + b) == Quotes(a) + Quotes(b)
  {
    if a == "" {
      assert a + b == b;
    } else {
      QuotesConcat(a[1..], b);
      assert (a + b)[1..] == a[1..] + b;
    }
  }

  lemma PlainWordIs(w: string)
    requires Plain(w)
    ensures w != "" && ' ' !in w && '"' !in w && !IsSpace(w[0]) && !IsSpace(w[|w| - 1]) && w[0] != ' '
    ensures Quotes(w) == 0 && Words(w) == [w]
  {
    assert IsSpace(' ');
    NoQuotes(w);
    WordsPlain(w);
  }

  lemma {:induction false} SpacedWords(words: seq<string>, n: nat)
    requires words != [] && AllPlain(words)
    ensures var s := Spaced(words, n);
            && Words(s) == words && Quotes(s) == 0 && s != "" && s[0] != ' '
            && !IsSpace(s[0]) && !IsSpace(s[|s| - 1])
    decreases |words|
  {
    hide Words, Quotes, IsSpace, Plain;
    assert Plain(words[0]);
    PlainWordIs(words[0]);
    if |words| == 1 {
      assert words == [words[0]];
    } else {
      assert AllPlain(words[1..]);
      SpacedWords(words[1..], n);
      var rest := Spaced(words[1..], n);
      WordsApart(words[0], n, rest);
      BlanksSkipped(n, rest);
      QuotesConcat(words[0], " " + (Blanks(n) + rest));
      QuotesConcat(" ", Blanks(n) + rest);
      OneBlank();
      assert [words[0]] + words[1..] == words;
    }
  }

  lemma OneBlank()
    ensures Quotes(" ") == 0
  {
  }

  predicate White(s: string) {
    forall i :: 0 <= i < |s| ==> s[i] as int in SPACES
  }

  lemma {:induction false} TrimLeftWhite(lead: string, s: string)
    requires White(lead) && s != "" && !IsSpace(s[0])
    ensures TrimLeft(lead + s) == s
  {
    hide IsSpace;
    if lead == "" {
      assert lead + s == s;
    } else {
      SpaceIs(lead[0]);
      TrimLeftWhite(lead[1..], s);
      assert (lead + s)[1..] == lead[1..] + s;
    }
  }

  lemma {:induction false} TrimRightWhite(s: string, trail: string)
    requires White(trail) && s != "" && !IsSpace(s[|s| - 1])
    ensures TrimRight(s + trail) == s
    decreases |trail|
  {
    hide IsSpace;
    if trail == "" {
      assert s + trail == s;
    } else {
      SpaceIs(trail[|trail| - 1]);
      TrimRightWhite(s, trail[..|trail| - 1]);
      assert (s + trail)[..|s + trail| - 1] == s + trail[..|trail| - 1];
    }
  }

  /** White space around a text is trimmed off, and nothing else. */
  lemma TrimAround(lead: string, s: string, trail: string)
    requires White(lead) && White(trail) && s != "" && !IsSpace(s[0]) && !IsSpace(s[|s| - 1])
    ensures Trimmed(lead + (s + trail)) == s
  {
    assert (s + trail)[0] == s[0];
    hide TrimLeft, TrimRight, IsSpace;
    TrimLeftWhite(lead, s + trail);
    TrimRightWhite(s, trail);
  }

  /** In any layout, a line of plain words has these words. */
  lemma LineWords(lead: string, words: seq<string>, n: nat, trail: string)
    requires White(lead) && White(trail) && words != [] && AllPlain(words)
    ensures Words(Trimmed(lead + (Spaced(words, n) + trail))) == words
  {
    hide Words, Trimmed, IsSpace, Plain;
    SpacedWords(words, n);
    TrimAround(lead, Spaced(words, n), trail);
  }

  /** Such a line outside a block is a directive: it is taken, or the parse is rejected. */
  lemma LineIsDirective(
    c: Config, lead: string, words: seq<string>, n: nat, trail: string, rest: seq<string>, count: nat)
    requires White(lead) && White(trail) && words != [] && AllPlain(words) && words[0] != "<connection>"
    ensures var p := Directive(c, words[0], words[1..]);
            ParseLines(c, [lead + (Spaced(words, n) + trail)] + rest, count) ==
            if p.ok then ParseLines(p.c, rest, count) else Rejected(p.c)
  {
    hide Words, Trimmed, Directive, Spaced;
    LineWords(lead, words, n, trail);
    var line := lead + (Spaced(words, n) + trail);
    assert ([line] + rest)[1..] == rest;
  }

  // ---- what the directives do ----

  /** A remote sets the host, and the port and the protocol that follow it, and nothing else,
      like the remote of the first connection block. */
  lemma RemoteSets(c: Config, host: string, port: int, proto: Proto, rest: seq<string>, count: nat)
    requires ValidRemote(host) && 0 < port <= 65535 && proto != NoneProto
    ensures Directive(c, "remote", [host]) == Progress(c.(remote := host), true)
    ensures Directive(c, "remote", [host, Number(port)]) == Progress(c.(remote := host, remotePort := port), true)
    ensures Directive(c, "remote", [host, Number(port), ProtoToStr(proto)]) ==
            Progress(c.(remote := host, remotePort := port, remoteProto := proto), true)
    ensures ParseLines(c, ["<connection>", RemoteLine(host, port, proto), "</connection>"] + rest, 0) ==
            ParseLines(Directive(c, "remote", [host, Number(port), ProtoToStr(proto)]).c, rest, 1)
  {
    hide ParseLines, ValidRemote, Number, ToInt, RemoteLine, ProtoToStr, ProtoFromStr, Directive;
    NumberReads(port);
    NamesRoundTrip(proto, TapDev, "");
    BlockParses(c, host, port, proto, rest, 0);
    IsRemote(c, [host]);
    IsRemote(c, [host, Number(port)]);
    IsRemote(c, [host, Number(port), ProtoToStr(proto)]);
  }

  lemma IsRemote(c: Config, args: seq<string>)
    requires args != []
    ensures Directive(c, "remote", args) == Remote(c, args)
  {
    hide Remote;
  }

  /** A protocol is set for both remotes; compression is on with no argument or with "yes". */
  lemma OptionsSet(c: Config, proto: Proto, dev: Dev, word: string)
    requires proto != NoneProto && dev != NoneDev
    ensures Directive(c, "proto", [ProtoToStr(proto)]) ==
            Progress(c.(remoteProto := proto, fallbackRemoteProto := proto), true)
    ensures Directive(c, "dev", [DevToStr(dev)]) == Progress(c.(dev := dev), true)
    ensures Directive(c, "dev", ["tap"]).c.dev == TapDev && Directive(c, "dev", ["tun"]).c.dev == TunDev
    ensures Directive(c, "proto", ["udp"]).c.remoteProto == UdpProto
    ensures Directive(c, "proto", ["tcp"]).c.remoteProto == TcpProto
    ensures Directive(c, "comp-lzo", []) == Progress(c.(compEnabled := true), true)
    ensures Directive(c, "comp-lzo", [word]) == Progress(c.(compEnabled := word == "yes"), true)
  {
    NamesRoundTrip(proto, dev, "");
  }

  /** Each path key sets its own path, given in quotes or without them. */
  lemma PathsSet(c: Config, path: string, quoted: bool)
    requires '"' !in path
    ensures var args := [if quoted then ['"'] + path + ['"'] else path];
            && Directive(c, "ca", args) == Progress(c.(caPath := path), true)
            && Directive(c, "cert", args) == Progress(c.(certPath := path), true)
            && Directive(c, "key", args) == Progress(c.(keyPath := path), true)
            && Directive(c, "pkcs12", args) == Progress(c.(p12Path := path), true)
  {
    RemoveFromQuoted(path, '"');
    NothingRemoved(path, '"');
    hide Remove;
  }

  lemma {:induction false} NothingRemoved(s: string, c: char)
    requires c !in s
    ensures Remove(s, c) == s
  {
    if s != "" {
      NothingRemoved(s[1..], c);
      assert [s[0]] + s[1..] == s;
    }
  }

  predicate Known(key: string) {
    key in {"comp-lzo", "dev", "proto", "remote", "ca", "cert", "key", "pkcs12"}
  }

  predicate PathKey(key: string) {
    key in {"ca", "cert", "key", "pkcs12"}
  }

  // Host, port and protocol of a remote that are valid, the last two where given.
  predicate RemoteArgs(args: seq<string>) {
    && args != [] && ValidRemote(args[0])
    && (|args| >= 2 ==> 0 < ToInt(args[1]) <= 65535)
    && (|args| >= 3 ==> args[2] in {"udp", "tcp"})
  }

  /** Which lines outside a block are taken without an error, and which change nothing. */
  lemma DirectiveTakenIff(c: Config, key: string, args: seq<string>)
    ensures Directive(c, key, args).ok <==>
            && (key == "dev" ==> |args| == 1 && args[0] in {"tap", "tun"})
            && (key == "proto" ==> |args| == 1 && args[0] in {"udp", "tcp"})
            && (key == "remote" ==> RemoteArgs(args))
            && (PathKey(key) ==> |args| == 1)
    ensures !Known(key) || (key == "comp-lzo" && |args| > 1) ==> Directive(c, key, args).c == c
  {
    hide ValidRemote, ToInt, Remove;
  }

  /** Which blocks are taken, and what they leave alone: the first sets the primary remote, the
      second the fallback, a third is an error. */
  lemma ConnectionTakenIff(c: Config, line: string, count: nat)
    ensures var words, p := SpaceSplit(line), Connection(c, line, count);
            && (p.ok <==> count < 2 && words[0] == "remote" && RemoteArgs(words[1..]))
            && (p.ok && count == 1 ==>
                  p.c == c.(fallbackEnabled := true, fallbackRemote := words[1],
                            fallbackRemotePort := if |words| > 2 then ToInt(words[2]) else c.fallbackRemotePort,
                            fallbackRemoteProto :=
                              if |words| > 3 then ProtoFromStr(words[3]) else c.fallbackRemoteProto))
            && (p.ok && count == 0 ==>
                  p.c == c.(remote := words[1],
                            remotePort := if |words| > 2 then ToInt(words[2]) else c.remotePort,
                            remoteProto := if |words| > 3 then ProtoFromStr(words[3]) else c.remoteProto))
  {
    hide ValidRemote, ToInt, SpaceSplit;
  }

  // ---- the line of a block ----

  lemma {:induction false} SpaceSplitAt(head: string, w: char, tail: string)
    requires (forall i :: 0 <= i < |head| ==> !IsSpace(head[i])) && w as int in SPACES
    ensures SpaceSplit(head + ([w] + tail)) == [head] + SpaceSplit(tail)
  {
    hide IsSpace;
    var s := head + ([w] + tail);
    SpaceIs(w);
    if head == "" {
      assert s[1..] == tail && s[0] == w;
    } else {
      SpaceSplitAt(head[1..], w, tail);
      assert s[1..] == head[1..] + ([w] + tail) && s[0] == head[0];
      assert [head[0]] + head[1..] == head;
    }
  }

  function BlockLine(host: string, port: nat, proto: Proto, w1: char, w2: char, w3: char): string {
    "remote" + ([w1] + (host + ([w2] + (Number(port) + ([w3] + ProtoToStr(proto))))))
  }

  /** Any one white space character separates the words of the line in a block. */
  lemma BlockLineReads(
    c: Config, host: string, port: int, proto: Proto, w1: char, w2: char, w3: char, count: nat)
    requires ValidRemote(host) && 0 < port <= 65535 && proto != NoneProto
    requires White([w1]) && White([w2]) && White([w3])
    ensures SpaceSplit(BlockLine(host, port, proto, w1, w2, w3)) == ["remote", host, Number(port), ProtoToStr(proto)]
    ensures Connection(c, BlockLine(host, port, proto, w1, w2, w3), count) ==
            Connection(c, RemoteLine(host, port, proto), count)
  {
    hide SpaceSplit, ValidRemote, Number, ProtoToStr, IsSpace, Remote, FallbackRemote;
    PlainHost(host);
    PlainNumber(port);
    PlainNames(TapDev, proto);
    assert [w1][0] == w1 && [w2][0] == w2 && [w3][0] == w3;
    SpaceSplitAt("remote", w1, host + ([w2] + (Number(port) + ([w3] + ProtoToStr(proto)))));
    SpaceSplitAt(host, w2, Number(port) + ([w3] + ProtoToStr(proto)));
    SpaceSplitAt(Number(port), w3, ProtoToStr(proto));
    SpaceSplitWhole(ProtoToStr(proto));
    RemoteWords(host, port, proto);
  }

  /** A second one leaves an empty host, and the block is refused. */
  lemma DoubleSpaceRefused(c: Config, w1: char, w2: char, rest: string, count: nat)
    requires White([w1]) && White([w2])
    ensures !Connection(c, "remote" + ([w1] + ([w2] + rest)), count).ok
  {
    hide SpaceSplit, IsSpace, ToInt;
    assert [w1][0] == w1 && [w2][0] == w2;
    PlainNames(TapDev, UdpProto);
    SpaceSplitAt("remote", w1, [w2] + rest);
    SpaceSplitAt("", w2, rest);
    assert "" + ([w2] + rest) == [w2] + rest;
    ConnectionTakenIff(c, "remote" + ([w1] + ([w2] + rest)), count);
    SplitWhole("", '.');
  }

  /** A text is accepted if and only if every line is taken and some remote was set. */
  lemma {:induction false} AcceptedIff(c: Config, tokens: seq<string>, count: nat)
    requires Sound(c)
    ensures ParseLines(c, tokens, count).Parsed? <==>
            Consumes(c, tokens, count) && ParseLines(c, tokens, count).c.remote != ""
    ensures Consumes(c, tokens, count) ==> ParseLines(c, tokens, count).c.valid == ParseLines(c, tokens, count).Parsed?
    decreases |tokens|
  {
    hide Directive, Connection, Words, Trimmed, ValidRemote;
    if tokens != [] {
      var w := Words(Trimmed(tokens[0]));
      if w[0] != "<connection>" {
        DirectiveKeepsSound(c, w[0], w[1..]);
        AcceptedIff(Directive(c, w[0], w[1..]).c, tokens[1..], count);
      } else if |tokens| > 2 {
        ConnectionKeepsSound(c, tokens[1], count);
        AcceptedIff(Connection(c, tokens[1], count).c, tokens[3..], count + 1);
      }
    }
  }

  /** A configuration without blocks: device, protocol and remote, each on a line of its own
      and in any layout, are what is parsed. */
  lemma PlainConfigParses(dev: Dev, proto: Proto, host: string, port: int, lead: string, n: nat, trail: string)
    requires dev != NoneDev && proto != NoneProto && ValidRemote(host) && 0 < port <= 65535
    requires White(lead) && White(trail)
    ensures var lines := [lead + (Spaced(["dev", DevToStr(dev)], n) + trail),
                          lead + (Spaced(["proto", ProtoToStr(proto)], n) + trail),
                          lead + (Spaced(["remote", host, Number(port)], n) + trail)];
            ParseLines(CLEAR, lines, 0) ==
            Parsed(CLEAR.(dev := dev, remoteProto := proto, fallbackRemoteProto := proto,
                          remote := host, remotePort := port, valid := true))
  {
    hide ParseLines, Directive, Plain, White, ValidRemote, Number, Spaced, DevToStr, ProtoToStr, RemoteLine;
    PlainHost(host);
    PlainNumber(port);
    PlainNames(dev, proto);
    var c := CLEAR.(dev := dev);
    var d := c.(remoteProto := proto, fallbackRemoteProto := proto);
    var l1, l2, l3 := lead + (Spaced(["dev", DevToStr(dev)], n) + trail),
                      lead + (Spaced(["proto", ProtoToStr(proto)], n) + trail),
                      lead + (Spaced(["remote", host, Number(port)], n) + trail);
    OptionsSet(CLEAR, proto, dev, "");
    PlainLine(CLEAR, lead, "dev", [DevToStr(dev)], n, trail, [l2, l3]);
    OptionsSet(c, proto, dev, "");
    PlainLine(c, lead, "proto", [ProtoToStr(proto)], n, trail, [l3]);
    RemoteSets(d, host, port, proto, [], 0);
    PlainLine(d, lead, "remote", [host, Number(port)], n, trail, []);
    assert ["dev"] + [DevToStr(dev)] == ["dev", DevToStr(dev)];
    assert ["proto"] + [ProtoToStr(proto)] == ["proto", ProtoToStr(proto)];
    assert ["remote"] + [host, Number(port)] == ["remote", host, Number(port)];
    assert [l1, l2, l3] == [l1] + [l2, l3] && [l2, l3] == [l2] + [l3] && [l3] == [l3] + [];
    RemoteNotEmpty(host);
    EndOfLines(d.(remote := host, remotePort := port));
  }

  function Line(lead: string, key: string, args: seq<string>, n: nat, trail: string): string {
    lead + (Spaced([key] + args, n) + trail)
  }

  lemma TwoLines(
    c: Config, lead: string, key: string, args: seq<string>, later: seq<string>, n: nat, trail: string,
    rest: seq<string>, count: nat)
    requires White(lead) && White(trail) && Plain(key) && AllPlain(args) && AllPlain(later) && key != "<connection>"
    requires Directive(c, key, args).ok && Directive(c, key, later).ok
    requires Directive(Directive(c, key, args).c, key, later) == Directive(c, key, later)
    ensures var second := Line(lead, key, later, n, trail);
            ParseLines(c, [Line(lead, key, args, n, trail), second] + rest, count) ==
            ParseLines(c, [second] + rest, count)
  {
    hide ParseLines, Directive, Plain, White, Spaced;
    var first, second := Line(lead, key, args, n, trail), Line(lead, key, later, n, trail);
    assert ([key] + args)[1..] == args && ([key] + args)[0] == key;
    assert ([key] + later)[1..] == later && ([key] + later)[0] == key;
    LineIsDirective(c, lead, [key] + args, n, trail, [second] + rest, count);
    LineIsDirective(Directive(c, key, args).c, lead, [key] + later, n, trail, rest, count);
    LineIsDirective(c, lead, [key] + later, n, trail, rest, count);
    assert [first, second] + rest == [first] + ([second] + rest);
  }

  /** Of two remotes the later one decides, wherever they stand outside a block. */
  lemma LaterRemoteWins(
    c: Config, host: string, port: int, proto: Proto, host': string, port': int, proto': Proto, lead: string,
    n: nat, trail: string, rest: seq<string>, count: nat)
    requires ValidRemote(host) && 0 < port <= 65535 && proto != NoneProto
    requires ValidRemote(host') && 0 < port' <= 65535 && proto' != NoneProto && White(lead) && White(trail)
    ensures var later := Line(lead, "remote", [host', Number(port'), ProtoToStr(proto')], n, trail);
            ParseLines(c, [Line(lead, "remote", [host, Number(port), ProtoToStr(proto)], n, trail), later] + rest,
                       count)
            == ParseLines(c, [later] + rest, count)
  {
    hide ParseLines, Directive, Plain, White, ValidRemote, Number, Spaced, ProtoToStr, Line;
    LaterDirectiveWins(c, host, port, proto, host', port', proto');
    PlainHost(host);
    PlainHost(host');
    PlainNumber(port);
    PlainNumber(port');
    PlainNames(TapDev, proto);
    PlainNames(TapDev, proto');
    TwoLines(c, lead, "remote", [host, Number(port), ProtoToStr(proto)], [host', Number(port'), ProtoToStr(proto')],
             n, trail, rest, count);
  }

  /** So does the later one of two protocols, and of two lines on compression. */
  lemma LaterOptionWins(
    c: Config, proto: Proto, proto': Proto, lead: string, n: nat, trail: string, rest: seq<string>, count: nat)
    requires proto != NoneProto && proto' != NoneProto && White(lead) && White(trail)
    ensures var later := Line(lead, "proto", [ProtoToStr(proto')], n, trail);
            ParseLines(c, [Line(lead, "proto", [ProtoToStr(proto)], n, trail), later] + rest, count)
            == ParseLines(c, [later] + rest, count)
    ensures var later := Line(lead, "comp-lzo", ["no"], n, trail);
            ParseLines(c, [Line(lead, "comp-lzo", [], n, trail), later] + rest, count)
            == ParseLines(c, [later] + rest, count)
  {
    hide ParseLines, Directive, Plain, White, Spaced, ProtoToStr, Line;
    OptionsSet(c, proto, TapDev, "no");
    OptionsSet(c, proto', TapDev, "no");
    OptionsSet(c.(remoteProto := proto, fallbackRemoteProto := proto), proto', TapDev, "no");
    OptionsSet(c.(compEnabled := true), proto, TapDev, "no");
    PlainNames(TapDev, proto);
    PlainNames(TapDev, proto');
    PlainWords();
    TwoLines(c, lead, "proto", [ProtoToStr(proto)], [ProtoToStr(proto')], n, trail, rest, count);
    TwoLines(c, lead, "comp-lzo", [], ["no"], n, trail, rest, count);
  }

  lemma PlainWords()
    ensures Plain("comp-lzo") && Plain("no")
  {
  }

  lemma LaterDirectiveWins(
    c: Config, host: string, port: int, proto: Proto, host': string, port': int, proto': Proto)
    requires ValidRemote(host) && 0 < port <= 65535 && proto != NoneProto
    requires ValidRemote(host') && 0 < port' <= 65535 && proto' != NoneProto
    ensures var args, later := [host, Number(port), ProtoToStr(proto)], [host', Number(port'), ProtoToStr(proto')];
            var p := Directive(c, "remote", args);
            p.ok && Directive(c, "remote", later).ok &&
            Directive(p.c, "remote", later) == Directive(c, "remote", later)
  {
    hide Directive, ValidRemote, Number, ProtoToStr, ParseLines, RemoteLine;
    RemoteSets(c, host, port, proto, [], 0);
    RemoteSets(c, host', port', proto', [], 0);
    RemoteSets(c.(remote := host, remotePort := port, remoteProto := proto), host', port', proto', [], 0);
  }

  lemma PlainLine(c: Config, lead: string, key: string, args: seq<string>, n: nat, trail: string, rest: seq<string>)
    requires White(lead) && White(trail) && Plain(key) && AllPlain(args) && key != "<connection>"
    requires Directive(c, key, args).ok
    ensures ParseLines(c, [lead + (Spaced([key] + args, n) + trail)] + rest, 0) ==
            ParseLines(Directive(c, key, args).c, rest, 0)
  {
    hide ParseLines, Directive, Plain, White, Spaced;
    assert ([key] + args)[1..] == args && ([key] + args)[0] == key;
    LineIsDirective(c, lead, [key] + args, n, trail, rest, 0);
  }

  /** A host on its own: the device is a tap, and the port is 1194 over UDP. */
  lemma HostAloneParses(host: string, lead: string, n: nat, trail: string)
    requires ValidRemote(host) && White(lead) && White(trail)
    ensures ParseLines(CLEAR, [Line(lead, "remote", [host], n, trail)], 0) ==
            Parsed(Config(true, "", NoneAuth, true, TapDev, host, 1194, UdpProto, false, "", 1194, UdpProto,
                          "", "", "", ""))
  {
    hide ParseLines, Directive, Plain, White, ValidRemote, Number, Spaced, RemoteLine, ProtoToStr;
    PlainHost(host);
    PlainNames(TapDev, UdpProto);
    RemoteSets(CLEAR, host, 1194, UdpProto, [], 0);
    PlainLine(CLEAR, lead, "remote", [host], n, trail, []);
    var line := Line(lead, "remote", [host], n, trail);
    assert [line] == [line] + [];
    RemoteNotEmpty(host);
    EndOfLines(CLEAR.(remote := host));
  }

  /** A configuration given as text is written as it is, so that a parse of the file does what
      a parse of the text does. */
  lemma GivenTextIsWritten(c: Config, d: Config, s: string)
    requires s != ""
    ensures FileText(c.(text := s)) == s && FromString(d, FileText(c.(text := s))) == FromString(d, s)
  {
  }

  lemma EndOfLines(c: Config)
    ensures ParseLines(c, [], 0) == Finish(c)
  {
  }

  lemma PlainNames(dev: Dev, proto: Proto)
    requires dev != NoneDev && proto != NoneProto
    ensures Plain("dev") && Plain("proto") && Plain("remote") && Plain(DevToStr(dev)) && Plain(ProtoToStr(proto))
  {
  }

  lemma PlainNumber(n: nat)
    ensures Plain(Number(n))
  {
    NumberReads(n);
  }

  lemma PlainHost(host: string)
    requires ValidRemote(host)
    ensures Plain(host)
  {
    RemoteHasNoSpace(host);
    hide IsSpace;
    forall i | 0 <= i < |host| ensures host[i] != '"' {
      if host[i] == '"' {
        SplitCovers(host, '.', i);
        var k, j :|
          0 <= k < |Split(host, '.')| && 0 <= j < |Split(host, '.')[k]| && Split(host, '.')[k][j] == host[i];
      }
    }
  }

  // ---- valid hosts ----

  function JoinWith(parts: seq<string>, sep: char): string
    requires parts != []
  {
    if |parts| == 1 then parts[0] else parts[0] + ([sep] + JoinWith(parts[1..], sep))
  }

  /** Joining undoes splitting. */
  lemma {:induction false} JoinUndoesSplit(s: string, sep: char)
    ensures JoinWith(Split(s, sep), sep) == s
  {
    if s != "" {
      JoinUndoesSplit(s[1..], sep);
      var rest, parts := Split(s[1..], sep), Split(s, sep);
      if s[0] == sep {
        assert parts[1..] == rest && "" + ([sep] + s[1..]) == s;
      } else {
        assert parts[1..] == rest[1..] && parts[0] == [s[0]] + rest[0];
        assert [s[0]] + s[1..] == s;
        if |rest| > 1 {
          ThreeParts([s[0]], rest[0], [sep] + JoinWith(rest[1..], sep));
        }
      }
    }
  }

  lemma DecimalOfOctet(n: nat)
    requires n < 256
    ensures n < 10 ==> JsonText.Decimal(n) == [48 + n]
    ensures 10 <= n < 100 ==> JsonText.Decimal(n) == [48 + n / 10, 48 + n % 10]
    ensures 100 <= n ==> JsonText.Decimal(n) == [48 + n / 100, 48 + n / 10 % 10, 48 + n % 10]
  {
    if n >= 100 {
      assert JsonText.Decimal(n / 10) == [48 + n / 100, 48 + n / 10 % 10];
    }
  }

  /** The octets are exactly the decimal numerals below 256. */
  lemma OctetOfNumber(n: nat)
    requires n < 256
    ensures Octet(Number(n))
  {
    DecimalOfOctet(n);
  }

  lemma NumberOfOctet(s: string) returns (n: nat)
    requires Octet(s)
    ensures n < 256 && s == Number(n)
  {
    var d0, d1, d2 := Digit0(s, 0), Digit0(s, 1), Digit0(s, 2);
    n := if |s| == 1 then d0 else if |s| == 2 then 10 * d0 + d1 else 100 * d0 + 10 * d1 + d2;
    hide Number, JsonText.Decimal;
    OctetDigits(s);
    DigitsOf(n, if |s| == 3 then d0 else 0, if |s| == 3 then d1 else if |s| == 2 then d0 else 0,
             if |s| == 3 then d2 else if |s| == 2 then d1 else d0);
    DecimalOfOctet(n);
    hide Octet;
    NumberChars(n);
  }

  lemma OctetDigits(s: string)
    requires Octet(s)
    ensures 0 <= Digit0(s, 0) <= 9 && 0 <= Digit0(s, 1) <= 9 && 0 <= Digit0(s, 2) <= 9
    ensures |s| == 2 ==> Digit0(s, 0) >= 1
    ensures |s| == 3 ==> Digit0(s, 0) >= 1 && 100 * Digit0(s, 0) + 10 * Digit0(s, 1) + Digit0(s, 2) < 256
  {
    assert |s| > 1 ==> Digit(s[1]);
    assert |s| > 2 ==> Digit(s[2]);
  }

  lemma DigitsOf(n: nat, a: nat, b: nat, c: nat)
    requires n == 100 * a + 10 * b + c && b <= 9 && c <= 9
    ensures n / 100 == a && n / 10 % 10 == b && n % 10 == c && n / 10 == 10 * a + b
  {
    LastDigit(n, 10 * a + b, c);
    LastDigit(10 * a + b, a, b);
    Hundreds(n, a, 10 * b + c);
  }

  lemma LastDigit(n: nat, q: nat, r: nat)
    requires n == 10 * q + r && r < 10
    ensures n / 10 == q && n % 10 == r
  {
  }

  lemma Hundreds(n: nat, q: nat, r: nat)
    requires n == 100 * q + r && r < 100
    ensures n / 100 == q
  {
  }

  function Digit0(s: string, i: nat): int {
    if i < |s| then s[i] as int - 48 else 0
  }

  lemma NumberChars(n: nat)
    ensures |Number(n)| == |JsonText.Decimal(n)|
    ensures forall i :: 0 <= i < |Number(n)| ==> Number(n)[i] as int == JsonText.Decimal(n)[i]
  {
  }

  function Dotted(a: nat, b: nat, c: nat, d: nat): string {
    JoinWith([Number(a), Number(b), Number(c), Number(d)], '.')
  }

  lemma NoDot(n: nat)
    ensures '.' !in Number(n)
  {
    NumberReads(n);
  }

  lemma {:induction false} SplitUndoesJoin(parts: seq<string>, sep: char)
    requires parts != [] && forall i :: 0 <= i < |parts| ==> sep !in parts[i]
    ensures Split(JoinWith(parts, sep), sep) == parts
    decreases |parts|
  {
    hide Split;
    if |parts| == 1 {
      SplitWhole(parts[0], sep);
      assert parts == [parts[0]];
    } else {
      SplitUndoesJoin(parts[1..], sep);
      SplitAfter(parts[0], sep, JoinWith(parts[1..], sep));
      ThreeParts(parts[0], [sep], JoinWith(parts[1..], sep));
      assert parts == [parts[0]] + parts[1..];
    }
  }

  /** A text is a valid IP exactly when it is four numbers below 256, without leading zeros,
      with dots between them. */
  lemma ValidIpIff(s: string)
    ensures ValidIp(s) <==>
            exists a: nat, b: nat, c: nat, d: nat :: a < 256 && b < 256 && c < 256 && d < 256 && s == Dotted(a, b, c, d)
  {
    hide Octet, Number;
    if ValidIp(s) {
      var p := Split(s, '.');
      var a := NumberOfOctet(p[0]);
      var b := NumberOfOctet(p[1]);
      var c := NumberOfOctet(p[2]);
      var d := NumberOfOctet(p[3]);
      JoinUndoesSplit(s, '.');
      assert p == [Number(a), Number(b), Number(c), Number(d)];
      assert s == Dotted(a, b, c, d);
    }
    if exists a: nat, b: nat, c: nat, d: nat :: a < 256 && b < 256 && c < 256 && d < 256 && s == Dotted(a, b, c, d) {
      var a: nat, b: nat, c: nat, d: nat :| a < 256 && b < 256 && c < 256 && d < 256 && s == Dotted(a, b, c, d);
      DottedIsValid(a, b, c, d);
    }
  }

  lemma DottedIsValid(a: nat, b: nat, c: nat, d: nat)
    requires a < 256 && b < 256 && c < 256 && d < 256
    ensures ValidIp(Dotted(a, b, c, d))
  {
    hide Octet, Number, Split;
    NoDot(a);
    NoDot(b);
    NoDot(c);
    NoDot(d);
    OctetOfNumber(a);
    OctetOfNumber(b);
    OctetOfNumber(c);
    OctetOfNumber(d);
    SplitUndoesJoin([Number(a), Number(b), Number(c), Number(d)], '.');
  }

  /** Letters, digits, hyphens and dots, that begins and ends with a letter or digit and has one
      on both sides of every dot. */
  predicate HostText(s: string) {
    && s != "" && LetterOrDigit(s[0]) && LetterOrDigit(s[|s| - 1])
    && (forall i :: 0 <= i < |s| ==> LetterOrDigit(s[i]) || s[i] == '-' || s[i] == '.')
    && (forall i :: 0 <= i < |s| && s[i] == '.' ==>
          0 < i < |s| - 1 && LetterOrDigit(s[i - 1]) && LetterOrDigit(s[i + 1]))
  }

  /** A digit, or a capital or small letter of ASCII. */
  predicate LetterOrDigit(c: char) {
    48 <= c as int <= 57 || 65 <= c as int <= 90 || 97 <= c as int <= 122
  }

  lemma FirstDot(s: string) returns (d: nat)
    requires '.' in s
    ensures d < |s| && s[d] == '.' && '.' !in s[..d]
  {
    d := 0;
    while s[d] != '.'
      invariant d < |s| && '.' in s[d..] && '.' !in s[..d]
      decreases |s| - d
    {
      assert s[d..][0] == s[d] && s[d..][1..] == s[d + 1..];
      assert s[..d + 1] == s[..d] + [s[d]];
      d := d + 1;
    }
  }

  lemma HostTextParts(s: string, d: nat)
    requires d < |s| && s[d] == '.' && '.' !in s[..d]
    ensures HostText(s) <==> Label(s[..d]) && HostText(s[d + 1..])
  {
    var head, tail := s[..d], s[d + 1..];
    forall i | 0 <= i < d ensures head[i] == s[i] && s[i] != '.' {
      assert head[i] == s[i];
    }
    if HostText(s) {
      forall i | 0 <= i < |tail| && tail[i] == '.'
        ensures 0 < i < |tail| - 1 && LetterOrDigit(tail[i - 1]) && LetterOrDigit(tail[i + 1])
      {
        assert s[d + 1 + i] == '.';
      }
    }
    if Label(head) && HostText(tail) {
      forall i | 0 <= i < |s| ensures LetterOrDigit(s[i]) || s[i] == '-' || s[i] == '.' {
        if i < d {
          assert head[i] == s[i];
        } else if i > d {
          assert tail[i - d - 1] == s[i];
        }
      }
      forall i | 0 <= i < |s| && s[i] == '.'
        ensures 0 < i < |s| - 1 && LetterOrDigit(s[i - 1]) && LetterOrDigit(s[i + 1])
      {
        if i > d {
          assert tail[i - d - 1] == s[i];
        } else {
          assert head[d - 1] == s[d - 1] && tail[0] == s[d + 1];
        }
      }
    }
  }

  /** Said of its characters, what a valid host name is. */
  lemma {:induction false} ValidHostIff(s: string)
    ensures ValidHost(s) <==> HostText(s)
    decreases |s|
  {
    if '.' in s {
      var d := FirstDot(s);
      ValidHostIff(s[d + 1..]);
      HostTextParts(s, d);
      SplitAfter(s[..d], '.', s[d + 1..]);
      assert s == s[..d] + ['.'] + s[d + 1..];
      hide Split, Label, HostText;
      PartsAreLabels(s[..d], Split(s[d + 1..], '.'));
    } else {
      SplitWhole(s, '.');
      hide Split;
      assert ValidHost(s) <==> Label([s][0]);
      assert forall i :: 0 <= i < |s| ==> s[i] != '.';
    }
  }

  lemma PartsAreLabels(first: string, rest: seq<string>)
    ensures (forall i :: 0 <= i < |[first] + rest| ==> Label(([first] + rest)[i])) <==>
            Label(first) && forall i :: 0 <= i < |rest| ==> Label(rest[i])
  {
    hide Label;
    if forall i :: 0 <= i < |[first] + rest| ==> Label(([first] + rest)[i]) {
      assert Label(([first] + rest)[0]);
      forall i | 0 <= i < |rest| ensures Label(rest[i]) {
        assert ([first] + rest)[i + 1] == rest[i];
      }
    }
  }
}
