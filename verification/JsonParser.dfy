/** The parser of src/common/json/qtjson.cpp: the functions say what each index gives,
    the methods after them are the loops that advance it. */
module JsonParser {
  import opened Common
  import opened JsonText
  import opened JsonSerializer

  datatype Token =
    | NoToken | CurlyOpen | CurlyClose | SquaredOpen | SquaredClose | Colon | Comma
    | StringToken | NumberToken | TrueToken | FalseToken | NullToken

  /** The outcome of a parse function: a value and the index after it, or `success` cleared. */
  datatype Res<+T> = Ok(value: T, next: nat) | Fail

  function Unescape(c: QChar): Option<QChar> {
    if c == QUOTE then Some(QUOTE)
    else if c == BACKSLASH then Some(BACKSLASH)
    else if c == SLASH then Some(SLASH)
    else if c == 'b' as int then Some(BS)
    else if c == 'f' as int then Some(FF)
    else if c == 'n' as int then Some(LF)
    else if c == 'r' as int then Some(CR)
    else if c == 't' as int then Some(TAB)
    else None
  }

  function ReadNumber(t: Text, lib: Lib): Value {
    if DOT in t then Dbl(lib.toDouble(t))
    else if t != [] && t[0] == MINUS then
      match ToInteger(t, -0x8000_0000, 0x7FFF_FFFF)
      case Some(i) => Num(i)
      case None =>
        match ToInteger(t, -0x8000_0000_0000_0000, 0x7FFF_FFFF_FFFF_FFFF)
        case Some(ll) => Num(ll)
        case None => Str(t)
    else
      match ToInteger(t, 0, 0xFFFF_FFFF)
      case Some(u) => Num(u)
      case None =>
        match ToInteger(t, 0, 0xFFFF_FFFF_FFFF_FFFF)
        case Some(ull) => Num(ull)
        case None => Str(t)
  }

  function PunctuationToken(c: QChar): Token {
    if c == LBRACE then CurlyOpen
    else if c == RBRACE then CurlyClose
    else if c == LBRACKET then SquaredOpen
    else if c == RBRACKET then SquaredClose
    else if c == COMMA then Comma
    else if c == QUOTE then StringToken
    else if IsDigit(c) || c == MINUS then NumberToken
    else if c == COLON then Colon
    else NoToken
  }

  datatype Reader = Reader(json: Text, lib: Lib) {
    function SkipSpace(i: nat): (j: nat)
      requires i <= |json|
      ensures i <= j <= |json|
      ensures j < |json| ==> !IsSpace(json[j])
      decreases |json| - i
    {
      if i < |json| && IsSpace(json[i]) then SkipSpace(i + 1) else i
    }

    predicate Keyword(i: nat, word: Text) {
      i + |word| <= |json| && json[i..i + |word|] == word
    }

    /** The token at the first non-blank index and the index after it. */
    function NextToken(i: nat): (r: (Token, nat))
      requires i <= |json|
      ensures i <= r.1 <= |json|
      ensures r.0 != NoToken ==> SkipSpace(i) < r.1
      ensures r.0 == NoToken ==> r.1 == SkipSpace(i)
    {
      var p := SkipSpace(i);
      if p == |json| then (NoToken, p)
      else if PunctuationToken(json[p]) != NoToken then (PunctuationToken(json[p]), p + 1)
      else if Keyword(p, TRUE_TEXT) then (TrueToken, p + 4)
      else if Keyword(p, FALSE_TEXT) then (FalseToken, p + 5)
      else if Keyword(p, NULL_TEXT) then (NullToken, p + 4)
      else (NoToken, p)
    }

    /** The body of a string from index i, after `s` was read. An unknown escape is dropped. */
    function StringBody(i: nat, s: Text): (r: Res<Text>)
      requires i <= |json|
      ensures r.Ok? ==> i < r.next <= |json|
      decreases |json| - i
    {
      if i == |json| then Fail
      else if json[i] == QUOTE then Ok(s, i + 1)
      else if json[i] != BACKSLASH then StringBody(i + 1, s + [json[i]])
      else if i + 1 == |json| then Fail
      else if Unescape(json[i + 1]).Some? then StringBody(i + 2, s + [Unescape(json[i + 1]).value])
      else if json[i + 1] != 'u' as int then StringBody(i + 2, s)
      else if |json| - (i + 2) >= 4 then StringBody(i + 6, s + [lib.hex(json[i + 2..i + 6])])
      else Fail
    }

    /** The character at the first non-blank index opens the string, whatever it is. */
    function ParseString(i: nat): (r: Res<Text>)
      requires i <= |json| && SkipSpace(i) < |json|
      ensures r.Ok? ==> SkipSpace(i) + 1 < r.next <= |json|
    {
      StringBody(SkipSpace(i) + 1, [])
    }

    function NumberEnd(i: nat): (j: nat)
      requires i <= |json|
      ensures i <= j <= |json|
      ensures j < |json| ==> !IsNumberChar(json[j])
      decreases |json| - i
    {
      if i < |json| && IsNumberChar(json[i]) then NumberEnd(i + 1) else i
    }

    function ParseNumber(i: nat): (r: Res<Value>)
      requires i <= |json|
      ensures r.Ok? && i <= r.next <= |json|
    {
      var p := SkipSpace(i);
      Ok(ReadNumber(json[p..NumberEnd(p)], lib), NumberEnd(p))
    }

    function ParseValue(i: nat): (r: Res<Value>)
      requires i <= |json|
      ensures r.Ok? ==> i < r.next <= |json|
      decreases |json| - i, 1
    {
      var (token, next) := NextToken(i);
      match token
      case StringToken =>
        (match ParseString(i)
         case Ok(s, j) => Ok(Str(s), j)
         case Fail => Fail)
      case NumberToken => ParseNumber(i)
      case CurlyOpen => ParseMembers(next, map[])
      case SquaredOpen => ParseItems(next, [])
      case TrueToken => Ok(Bool(true), next)
      case FalseToken => Ok(Bool(false), next)
      case NullToken => Ok(Null, next)
      case _ => Fail
    }

    /** The loop of parseObject from index i with `entries` already read. */
    function ParseMembers(i: nat, entries: map<Text, Value>): (r: Res<Value>)
      requires i <= |json|
      ensures r.Ok? ==> i < r.next <= |json|
      decreases |json| - i, 2
    {
      var (token, next) := NextToken(i);
      if token == NoToken then Fail
      else if token == Comma then ParseMembers(next, entries)
      else if token == CurlyClose then Ok(Map(entries), next)
      else
        match ParseString(i)
        case Fail => Fail
        case Ok(name, j) =>
          var (colon, k) := NextToken(j);
          if colon != Colon then Fail
          else
            match ParseValue(k)
            case Fail => Fail
            case Ok(value, l) => ParseMembers(l, entries[name := value])
    }

    /** The loop of parseArray from index i with `items` already read. */
    function ParseItems(i: nat, items: seq<Value>): (r: Res<Value>)
      requires i <= |json|
      ensures r.Ok? ==> i < r.next <= |json|
      decreases |json| - i, 2
    {
      var (token, next) := NextToken(i);
      if token == NoToken then Fail
      else if token == Comma then ParseItems(next, items)
      else if token == SquaredClose then Ok(List(items), next)
      else
        match ParseValue(i)
        case Fail => Fail
        case Ok(value, j) => ParseItems(j, items + [value])
    }
  }

  // ---- the loops ----

  method EatWhitespace(r: Reader, start: nat) returns (index: nat)
    requires start <= |r.json|
    ensures index == r.SkipSpace(start)
  {
    index := start;
    while index < |r.json| && IsSpace(r.json[index])
      invariant index <= |r.json| && r.SkipSpace(index) == r.SkipSpace(start)
    {
      index := index + 1;
    }
  }

  /** parseString: the index stays inside the text whether or not the string is complete. */
  method ReadString(r: Reader, start: nat) returns (s: Text, index: nat, success: bool)
    requires start <= |r.json| && r.SkipSpace(start) < |r.json|
    ensures start < index <= |r.json|
    ensures r.ParseString(start) == if success then Ok(s, index) else Fail
  {
    index := EatWhitespace(r, start);
    s := [];
    index := index + 1;
    success := false;
    while !success
      invariant start < index <= |r.json|
      invariant r.ParseString(start) == if success then Ok(s, index) else r.StringBody(index, s)
      decreases |r.json| - index, !success
    {
      if index == |r.json| {
        return;
      }
      var c := r.json[index];
      index := index + 1;
      if c == QUOTE {
        success := true;
      } else if c == BACKSLASH {
        if index == |r.json| {
          return;
        }
        c := r.json[index];
        index := index + 1;
        match Unescape(c) {
          case Some(plain) => s := s + [plain];
          case None =>
            if c == 'u' as int {
              if |r.json| - index < 4 {
                return;
              }
              s := s + [r.lib.hex(r.json[index..index + 4])];
              index := index + 4;
            }
        }
      } else {
        s := s + [c];
      }
    }
  }

  method LastIndexOfNumber(r: Reader, start: nat) returns (lastIndex: int)
    requires start <= |r.json|
    ensures lastIndex == r.NumberEnd(start) - 1
  {
    var index := start;
    while index < |r.json| && IsNumberChar(r.json[index])
      invariant index <= |r.json| && r.NumberEnd(index) == r.NumberEnd(start)
    {
      index := index + 1;
    }
    lastIndex := index - 1;
  }

  method ReadNumberAt(r: Reader, start: nat) returns (value: Value, index: nat)
    requires start <= |r.json|
    ensures start <= index <= |r.json|
    ensures r.ParseNumber(start) == Ok(value, index)
  {
    index := EatWhitespace(r, start);
    var lastIndex := LastIndexOfNumber(r, index);
    var charLength := lastIndex - index + 1;
    value := ReadNumber(r.json[index..index + charLength], r.lib);
    index := lastIndex + 1;
  }

  method ReadValue(r: Reader, start: nat) returns (value: Value, index: nat, success: bool)
    requires start <= |r.json|
    ensures start <= index <= |r.json|
    ensures r.ParseValue(start) == if success then Ok(value, index) else Fail
    decreases |r.json| - start, 1
  {
    value, index, success := Null, start, true;
    var (token, next) := r.NextToken(start);
    match token
    case StringToken =>
      var s: Text;
      s, index, success := ReadString(r, start);
      value := Str(s);
    case NumberToken => value, index := ReadNumberAt(r, start);
    case CurlyOpen => value, index, success := ReadObject(r, start);
    case SquaredOpen => value, index, success := ReadArray(r, start);
    case TrueToken => value, index := Bool(true), next;
    case FalseToken => value, index := Bool(false), next;
    case NullToken => index := next;
    case _ => success := false;
  }

  method ReadObject(r: Reader, start: nat) returns (value: Value, index: nat, success: bool)
    requires start <= |r.json| && r.NextToken(start).0 == CurlyOpen
    ensures start <= index <= |r.json|
    ensures r.ParseMembers(r.NextToken(start).1, map[]) == if success then Ok(value, index) else Fail
    decreases |r.json| - start, 0
  {
    var entries: map<Text, Value> := map[];
    value, index, success := Map(map[]), r.NextToken(start).1, true;
    while true
      invariant start < index <= |r.json| && success
      invariant r.ParseMembers(r.NextToken(start).1, map[]) == r.ParseMembers(index, entries)
      decreases |r.json| - index
    {
      var (token, next) := r.NextToken(index);
      if token == NoToken {
        success := false;
        return;
      } else if token == Comma {
        index := next;
      } else if token == CurlyClose {
        value, index := Map(entries), next;
        return;
      } else {
        var name, item;
        name, index, success := ReadString(r, index);
        if !success {
          return;
        }
        var (colon, after) := r.NextToken(index);
        index := after;
        if colon != Colon {
          success := false;
          return;
        }
        item, index, success := ReadValue(r, index);
        if !success {
          return;
        }
        entries := entries[name := item];
      }
    }
  }

  method ReadArray(r: Reader, start: nat) returns (value: Value, index: nat, success: bool)
    requires start <= |r.json| && r.NextToken(start).0 == SquaredOpen
    ensures start <= index <= |r.json|
    ensures r.ParseItems(r.NextToken(start).1, []) == if success then Ok(value, index) else Fail
    decreases |r.json| - start, 0
  {
    var items: seq<Value> := [];
    value, index, success := List([]), r.NextToken(start).1, true;
    while true
      invariant start < index <= |r.json| && success
      invariant r.ParseItems(r.NextToken(start).1, []) == r.ParseItems(index, items)
      decreases |r.json| - index
    {
      var (token, next) := r.NextToken(index);
      if token == NoToken {
        success := false;
        return;
      } else if token == Comma {
        index := next;
      } else if token == SquaredClose {
        value, index := List(items), next;
        return;
      } else {
        var item;
        item, index, success := ReadValue(r, index);
        if !success {
          return;
        }
        items := items + [item];
      }
    }
  }

  /** parse: a null string is an empty value without an error, unlike an empty string. */
  method Parse(json: Option<Text>, lib: Lib) returns (value: Value, success: bool)
    ensures json.None? ==> success && value == Null
    ensures json.Some? ==> success == Reader(json.value, lib).ParseValue(0).Ok?
    ensures json.Some? && success ==> value == Reader(json.value, lib).ParseValue(0).value
    ensures json == Some([]) ==> !success
  {
    match json
    case None => value, success := Null, true;
    case Some(text) =>
      var index;
      value, index, success := ReadValue(Reader(text, lib), 0);
  }
}
