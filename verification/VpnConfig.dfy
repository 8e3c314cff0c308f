/** The OpenVPN configuration of src/common/vpn/vpnconfig.cpp: its fields, the text written
    from them and the parser that reads them back. */
module VpnConfig {
  import opened Common
  import opened Strings

  datatype Proto = NoneProto | UdpProto | TcpProto
  datatype Dev = NoneDev | TapDev | TunDev
  datatype AuthType = NoneAuth | UserpassAuth | CertificateAuth | CertificateUserpassAuth | OtherAuth

  const PORT_DEFAULT := 1194

  datatype Config = Config(
    valid: bool,
    text: string,
    authType: AuthType,
    compEnabled: bool,
    dev: Dev,
    remote: string, remotePort: int, remoteProto: Proto,
    fallbackEnabled: bool,
    fallbackRemote: string, fallbackRemotePort: int, fallbackRemoteProto: Proto,
    caPath: string, certPath: string, keyPath: string, p12Path: string)

  const CLEAR := Config(false, "", NoneAuth, true, TapDev, "", PORT_DEFAULT, UdpProto,
                        false, "", PORT_DEFAULT, UdpProto, "", "", "", "")

  // ---- conversions ----

  function ProtoFromStr(s: string): Proto {
    if s == "udp" then UdpProto else if s == "tcp" then TcpProto else NoneProto
  }

  function ProtoToStr(p: Proto): string {
    match p case UdpProto => "udp" case TcpProto => "tcp" case NoneProto => ""
  }

  function DevFromStr(s: string): Dev {
    if s == "tap" then TapDev else if s == "tun" then TunDev else NoneDev
  }

  function DevToStr(d: Dev): string {
    match d case TapDev => "tap" case TunDev => "tun" case NoneDev => ""
  }

  lemma NamesRoundTrip(p: Proto, d: Dev, s: string)
    ensures ProtoFromStr(ProtoToStr(p)) == p && DevFromStr(DevToStr(d)) == d
    ensures ProtoToStr(ProtoFromStr(s)) == s <==> s in {"udp", "tcp", ""}
    ensures DevToStr(DevFromStr(s)) == s <==> s in {"tap", "tun", ""}
  {
  }

  // ---- valid remotes: an IPv4 address, or a host name as in section 2.1 of RFC 1123 ----

  predicate Digit(c: char) {
    '0' <= c <= '9'
  }

  predicate Alnum(c: char) {
    Digit(c) || 'a' <= c <= 'z' || 'A' <= c <= 'Z'
  }

  predicate Octet(s: string) {
    && 1 <= |s| <= 3
    && (forall i :: 0 <= i < |s| ==> Digit(s[i]))
    && (|s| > 1 ==> s[0] != '0')
    && (|s| == 3 ==> s[0] == '1' || (s[0] == '2' && (s[1] < '5' || (s[1] == '5' && s[2] <= '5'))))
  }

  predicate Label(s: string) {
    && s != "" && Alnum(s[0]) && Alnum(s[|s| - 1])
    && forall i :: 0 <= i < |s| ==> Alnum(s[i]) || s[i] == '-'
  }

  predicate ValidIp(s: string) {
    var parts := Split(s, '.');
    |parts| == 4 && forall i :: 0 <= i < 4 ==> Octet(parts[i])
  }

  predicate ValidHost(s: string) {
    var parts := Split(s, '.');
    forall i :: 0 <= i < |parts| ==> Label(parts[i])
  }

  predicate ValidRemote(s: string) {
    ValidIp(s) || ValidHost(s)
  }

  // ---- setters: None reports the error and leaves the configuration alone ----

  function SetDev(c: Config, dev: Dev): Option<Config> {
    if dev == NoneDev then None else Some(c.(dev := dev))
  }

  function SetRemote(c: Config, remote: string): Option<Config> {
    if ValidRemote(remote) then Some(c.(remote := remote)) else None
  }

  function SetRemotePort(c: Config, port: int): Option<Config> {
    if port <= 0 || port > 65535 then None else Some(c.(remotePort := port))
  }

  function SetRemoteProto(c: Config, proto: Proto): Option<Config> {
    if proto == NoneProto then None else Some(c.(remoteProto := proto))
  }

  function SetFallbackRemote(c: Config, remote: string): Option<Config> {
    if ValidRemote(remote) then Some(c.(fallbackRemote := remote)) else None
  }

  function SetFallbackRemotePort(c: Config, port: int): Option<Config> {
    if port <= 0 || port > 65535 then None else Some(c.(fallbackRemotePort := port))
  }

  function SetFallbackRemoteProto(c: Config, proto: Proto): Option<Config> {
    if proto == NoneProto then None else Some(c.(fallbackRemoteProto := proto))
  }

  // ---- parsing ----

  function Quotes(s: string): nat {
    if s == "" then 0 else (if s[0] == '"' then 1 else 0) + Quotes(s[1..])
  }

  function SkipBlanks(s: string): (r: string)
    ensures |r| <= |s|
  {
    if s != "" && s[0] == ' ' then SkipBlanks(s[1..]) else s
  }

  /** The parts of a line between runs of blanks that an even number of quotes follows. */
  function Words(s: string): (w: seq<string>)
    ensures w != []
    decreases |s|
  {
    if s == "" then [""]
    else if s[0] == ' ' && Quotes(s) % 2 == 0 then [""] + Words(SkipBlanks(s[1..]))
    else
      var rest := Words(s[1..]);
      [[s[0]] + rest[0]] + rest[1..]
  }

  // split(QRegExp("\\s")): every white space character separates.
  function SpaceSplit(s: string): (w: seq<string>)
    ensures w != []
  {
    if s == "" then [""]
    else
      var rest := SpaceSplit(s[1..]);
      if IsSpace(s[0]) then [""] + rest else [[s[0]] + rest[0]] + rest[1..]
  }

  /** A step of the parser: the configuration as far as it was set, and whether the step
      succeeded. */
  datatype Progress = Progress(c: Config, ok: bool)

  function Then(p: Progress, next: Option<Config>): Progress {
    if !p.ok then p else match next case Some(c) => Progress(c, true) case None => Progress(p.c, false)
  }

  // Host, port and protocol of a remote, the last two optional.
  function Remote(c: Config, args: seq<string>): Progress
    requires args != []
  {
    var p := Then(Progress(c, true), SetRemote(c, args[0]));
    var q := if |args| >= 2 then Then(p, SetRemotePort(p.c, ToInt(args[1]))) else p;
    if |args| >= 3 then Then(q, SetRemoteProto(q.c, ProtoFromStr(args[2]))) else q
  }

  function FallbackRemote(c: Config, args: seq<string>): Progress
    requires args != []
  {
    var p := Then(Progress(c, true), SetFallbackRemote(c, args[0]));
    var q := if |args| >= 2 then Then(p, SetFallbackRemotePort(p.c, ToInt(args[1]))) else p;
    var r := if |args| >= 3 then Then(q, SetFallbackRemoteProto(q.c, ProtoFromStr(args[2]))) else q;
    Then(r, Some(r.c.(fallbackEnabled := true)))
  }

  /** One line outside a connection block. */
  function Directive(c: Config, key: string, args: seq<string>): Progress {
    if key == "comp-lzo" then
      Progress(if |args| == 0 then c.(compEnabled := true)
               else if |args| == 1 then c.(compEnabled := args[0] == "yes")
               else c, true)
    else if key == "dev" then
      if |args| != 1 then Progress(c, false) else Then(Progress(c, true), SetDev(c, DevFromStr(args[0])))
    else if key == "proto" then
      if |args| != 1 then Progress(c, false)
      else
        var p := Then(Progress(c, true), SetRemoteProto(c, ProtoFromStr(args[0])));
        Then(p, SetFallbackRemoteProto(p.c, ProtoFromStr(args[0])))
    else if key == "remote" then
      if |args| < 1 then Progress(c, false) else Remote(c, args)
    else PathDirective(c, key, args)
  }

  // A path may be quoted; an unknown key is skipped.
  function PathDirective(c: Config, key: string, args: seq<string>): Progress {
    if key == "ca" then
      if |args| != 1 then Progress(c, false) else Progress(c.(caPath := Remove(args[0], '"')), true)
    else if key == "cert" then
      if |args| != 1 then Progress(c, false) else Progress(c.(certPath := Remove(args[0], '"')), true)
    else if key == "key" then
      if |args| != 1 then Progress(c, false) else Progress(c.(keyPath := Remove(args[0], '"')), true)
    else if key == "pkcs12" then
      if |args| != 1 then Progress(c, false) else Progress(c.(p12Path := Remove(args[0], '"')), true)
    else Progress(c, true)
  }

  /** The remote line of the count-th connection block. */
  function Connection(c: Config, line: string, count: nat): Progress {
    var words := SpaceSplit(line);
    if |words| < 2 || words[0] != "remote" then Progress(c, false)
    else if count == 0 then Remote(c, words[1..])
    else if count == 1 then FallbackRemote(c, words[1..])
    else Progress(c, false)
  }

  /** How a parse ends; PastEnd is the call of takeFirst() on an empty list that the code
      makes when the last line opens a connection block. */
  datatype Outcome = Parsed(c: Config) | Rejected(c: Config) | PastEnd(c: Config)

  // checkValid(false), then the end of fromString()
  function Finish(c: Config): Outcome {
    var good := c.dev != NoneDev && c.remoteProto != NoneProto && c.remote != "";
    if good then Parsed(c.(valid := true)) else Rejected(c.(valid := false))
  }

  function ParseLines(c: Config, tokens: seq<string>, count: nat): Outcome
    decreases |tokens|
  {
    if tokens == [] then Finish(c)
    else
      var words := Words(Trimmed(tokens[0]));
      if words[0] != "<connection>" then
        var p := Directive(c, words[0], words[1..]);
        if p.ok then ParseLines(p.c, tokens[1..], count) else Rejected(p.c)
      else if |tokens| == 1 then PastEnd(c)
      else if |tokens| == 2 then Rejected(c)
      else
        var p := Connection(c, tokens[1], count);
        if !p.ok || tokens[2] != "</connection>" then Rejected(p.c)
        else ParseLines(p.c, tokens[3..], count + 1)
  }

  function FromString(c: Config, s: string): Outcome {
    ParseLines(c, Split(s, '\n'), 0)
  }

  // ---- writing ----

  function RemoteLine(remote: string, port: int, proto: Proto): string {
    "remote " + remote + " " + (if port < 0 then "-" + Number(-port) else Number(port)) + " " + ProtoToStr(proto)
  }

  function PathLine(key: string, path: string): seq<string> {
    if path == "" then [] else [key + " \"" + path + "\""]
  }

  // The paths that the authentication type lets be written.
  predicate WritesCa(a: AuthType) {
    a.NoneAuth? || a.UserpassAuth?
  }

  predicate WritesKeys(a: AuthType) {
    a.NoneAuth? || a.CertificateAuth? || a.CertificateUserpassAuth?
  }

  function PathLines(c: Config): seq<string> {
    (if WritesCa(c.authType) then PathLine("ca", c.caPath) else []) +
    (if WritesKeys(c.authType) then
       PathLine("cert", c.certPath) + PathLine("key", c.keyPath) + PathLine("pkcs12", c.p12Path)
     else [])
  }

  function HeadLines(c: Config): seq<string> {
    ["client", "nobind", if c.compEnabled then "comp-lzo" else "comp-lzo no", "dev " + DevToStr(c.dev)]
  }

  function FileLines(c: Config): seq<string> {
    HeadLines(c) +
    ["<connection>", RemoteLine(c.remote, c.remotePort, c.remoteProto), "</connection>"] +
    (if c.fallbackEnabled then
       ["<connection>", RemoteLine(c.fallbackRemote, c.fallbackRemotePort, c.fallbackRemoteProto), "</connection>"]
     else []) +
    PathLines(c)
  }

  /** The text that toFile() writes: what was given as text, or one made from the fields. */
  function FileText(c: Config): string {
    if c.text != "" then c.text else Lines(FileLines(c))
  }

  // ---- the object ----

  class VpnConfigObject {
    var valid: bool
    var text: string
    var authType: AuthType
    var compEnabled: bool
    var dev: Dev
    var remote: string
    var remotePort: int
    var remoteProto: Proto
    var fallbackEnabled: bool
    var fallbackRemote: string
    var fallbackRemotePort: int
    var fallbackRemoteProto: Proto
    var caPath: string
    var certPath: string
    var keyPath: string
    var p12Path: string

    function View(): Config
      reads this
    {
      Config(valid, text, authType, compEnabled, dev, remote, remotePort, remoteProto,
             fallbackEnabled, fallbackRemote, fallbackRemotePort, fallbackRemoteProto,
             caPath, certPath, keyPath, p12Path)
    }

    constructor ()
      ensures View() == CLEAR
    {
      valid, text, authType, compEnabled, dev := false, "", NoneAuth, true, TapDev;
      remote, remotePort, remoteProto := "", PORT_DEFAULT, UdpProto;
      fallbackEnabled, fallbackRemote, fallbackRemotePort, fallbackRemoteProto := false, "", PORT_DEFAULT, UdpProto;
      caPath, certPath, keyPath, p12Path := "", "", "", "";
    }

    method ReadRemote(args: seq<string>) returns (ok: bool)
      requires args != []
      modifies this
      ensures Progress(View(), ok) == Remote(old(View()), args)
    {
      hide ValidRemote, ToInt, ProtoFromStr;
      if !ValidRemote(args[0]) {
        return false;
      }
      remote := args[0];
      if |args| >= 2 {
        var port := ToInt(args[1]);
        if port <= 0 || port > 65535 {
          return false;
        }
        remotePort := port;
      }
      if |args| >= 3 {
        var proto := ProtoFromStr(args[2]);
        if proto == NoneProto {
          return false;
        }
        remoteProto := proto;
      }
      ok := true;
    }

    method ReadFallbackRemote(args: seq<string>) returns (ok: bool)
      requires args != []
      modifies this
      ensures Progress(View(), ok) == FallbackRemote(old(View()), args)
    {
      hide ValidRemote, ToInt, ProtoFromStr;
      if !ValidRemote(args[0]) {
        return false;
      }
      fallbackRemote := args[0];
      if |args| >= 2 {
        var port := ToInt(args[1]);
        if port <= 0 || port > 65535 {
          return false;
        }
        fallbackRemotePort := port;
      }
      if |args| >= 3 {
        var proto := ProtoFromStr(args[2]);
        if proto == NoneProto {
          return false;
        }
        fallbackRemoteProto := proto;
      }
      fallbackEnabled := true;
      ok := true;
    }

    method ReadConnection(line: string, count: nat) returns (ok: bool)
      modifies this
      ensures Progress(View(), ok) == Connection(old(View()), line, count)
    {
      var words := SpaceSplit(line);
      if |words| < 2 || words[0] != "remote" {
        return false;
      }
      if count == 0 {
        ok := ReadRemote(words[1..]);
      } else if count == 1 {
        ok := ReadFallbackRemote(words[1..]);
      } else {
        ok := false;
      }
    }

    method ReadDirective(key: string, args: seq<string>) returns (ok: bool)
      modifies this
      ensures Progress(View(), ok) == Directive(old(View()), key, args)
    {
      ok := true;
      if key == "comp-lzo" {
        if |args| == 0 {
          compEnabled := true;
        } else if |args| == 1 {
          compEnabled := args[0] == "yes";
        }
      } else if key == "dev" {
        if |args| != 1 || DevFromStr(args[0]) == NoneDev {
          return false;
        }
        dev := DevFromStr(args[0]);
      } else if key == "proto" {
        if |args| != 1 || ProtoFromStr(args[0]) == NoneProto {
          return false;
        }
        remoteProto := ProtoFromStr(args[0]);
        fallbackRemoteProto := ProtoFromStr(args[0]);
      } else if key == "remote" {
        if |args| < 1 {
          return false;
        }
        ok := ReadRemote(args);
      } else {
        ok := ReadPath(key, args);
      }
    }

    method ReadPath(key: string, args: seq<string>) returns (ok: bool)
      modifies this
      ensures Progress(View(), ok) == PathDirective(old(View()), key, args)
    {
      if key !in {"ca", "cert", "key", "pkcs12"} {
        return true;
      }
      if |args| != 1 {
        return false;
      }
      var path := Remove(args[0], '"');
      if key == "ca" {
        caPath := path;
      } else if key == "cert" {
        certPath := path;
      } else if key == "key" {
        keyPath := path;
      } else {
        p12Path := path;
      }
      ok := true;
    }

    /** fromString() with parsing on. */
    method Parse(s: string) returns (outcome: Outcome)
      modifies this
      ensures outcome == FromString(old(View()), s) && outcome.c == View()
    {
      var ok;
      var tokens := Split(s, '\n');
      var connectionCount := 0;
      while tokens != []
        invariant ParseLines(View(), tokens, connectionCount) == FromString(old(View()), s)
        decreases |tokens|
      {
        var words := Words(Trimmed(tokens[0]));
        ghost var before := tokens;
        tokens := tokens[1..];
        if words[0] == "<connection>" {
          if tokens == [] {
            return PastEnd(View());
          }
          var line := tokens[0];
          tokens := tokens[1..];
          if tokens == [] {
            return Rejected(View());
          }
          ok := ReadConnection(line, connectionCount);
          if !ok {
            return Rejected(View());
          }
          line, tokens := tokens[0], tokens[1..];
          assert tokens == before[3..];
          if line != "</connection>" {
            return Rejected(View());
          }
          connectionCount := connectionCount + 1;
        } else {
          ok := ReadDirective(words[0], words[1..]);
          if !ok {
            return Rejected(View());
          }
        }
      }
      valid := dev != NoneDev && remoteProto != NoneProto && remote != "";
      outcome := if valid then Parsed(View()) else Rejected(View());
    }
  }
}
