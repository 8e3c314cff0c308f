/** The JSON tree and the serializer of src/common/json/qtjson.cpp. */
module JsonSerializer {
  import opened Common
  import opened JsonText

  type Int64 = n: int | -0x8000_0000_0000_0000 <= n < 0x1_0000_0000_0000_0000

  // A double is named by its 64-bit image; printing and reading it belong to the library.
  datatype Double = Double(bits: nat)

  /** A QVariant restricted to what JSON carries. Num holds a value of any of the four
      integer variant types, so it ranges from the least qlonglong to the greatest qulonglong. */
  datatype Value =
    | Null
    | Bool(b: bool)
    | Num(n: Int64)
    | Dbl(d: Double)
    | Str(s: Text)
    | List(items: seq<Value>)
    | Map(entries: map<Text, Value>)

  /** The library calls the codec makes: QString::toInt(0, 16) narrowed to a QChar,
      QByteArray::number(double, 'g', 20) (None for infinities and NaN, which the caller
      rejects), QString::toDouble, the iteration order of a QMap or QHash, and what the
      conversion to UTF-8 and back puts for a lone surrogate. */
  datatype Lib = Lib(
    hex: Text -> QChar,
    number: Double -> Option<Text>,
    toDouble: Text -> Double,
    order: map<Text, Value> -> seq<Text>,
    lone: QChar)
  {
    ghost predicate Valid() {
      && (forall m :: Enumerates(order(m), m))
      && (forall t :: FourHexDigits(t) ==> hex(t) == HexValue(t))
      && !High(lone) && !Low(lone) && lone >= SPACE && lone != QUOTE && lone != BACKSLASH
      && (forall d :: number(d).Some? ==> IsDoubleText(number(d).value) && toDouble(WithPoint(number(d).value)) == d)
    }
  }

  ghost predicate Enumerates(keys: seq<Text>, m: map<Text, Value>) {
    && (forall k :: k in keys <==> k in m)
    && (forall i, j :: 0 <= i < j < |keys| ==> keys[i] != keys[j])
  }

  predicate IsDoubleText(t: Text) {
    t != [] && (IsDigit(t[0]) || t[0] == MINUS) && forall k :: 0 <= k < |t| ==> IsNumberChar(t[k])
  }

  // ".0" is appended to a printed double that has neither a point nor an exponent.
  function WithPoint(t: Text): Text {
    if DOT !in t && 'e' as int !in t then t + [DOT, ZERO] else t
  }

  // ---- sanitizeString ----

  function Replace(s: Text, c: QChar, with: Text): Text {
    if s == [] then [] else (if s[0] == c then with else [s[0]]) + Replace(s[1..], c, with)
  }

  function ReplaceAll(s: Text): Text {
    var s1 := Replace(s, BACKSLASH, [BACKSLASH, BACKSLASH]);
    var s2 := Replace(s1, QUOTE, [BACKSLASH, QUOTE]);
    var s3 := Replace(s2, BS, [BACKSLASH, 'b' as int]);
    var s4 := Replace(s3, FF, [BACKSLASH, 'f' as int]);
    var s5 := Replace(s4, LF, [BACKSLASH, 'n' as int]);
    var s6 := Replace(s5, CR, [BACKSLASH, 'r' as int]);
    Replace(s6, TAB, [BACKSLASH, 't' as int])
  }

  function Sanitize(s: Text): Text {
    [QUOTE] + ReplaceAll(s) + [QUOTE]
  }

  // The one-pass reading of the seven replacements.
  function EscapeChar(c: QChar): Text {
    if c == BACKSLASH then [BACKSLASH, BACKSLASH]
    else if c == QUOTE then [BACKSLASH, QUOTE]
    else if c == BS then [BACKSLASH, 'b' as int]
    else if c == FF then [BACKSLASH, 'f' as int]
    else if c == LF then [BACKSLASH, 'n' as int]
    else if c == CR then [BACKSLASH, 'r' as int]
    else if c == TAB then [BACKSLASH, 't' as int]
    else [c]
  }

  function Escape(s: Text): Text {
    if s == [] then [] else EscapeChar(s[0]) + Escape(s[1..])
  }

  lemma {:induction false} ReplaceConcat(a: Text, b: Text, c: QChar, with: Text)
    ensures Replace(a + b, c, with) == Replace(a, c, with) + Replace(b, c, with)
  {
    if a == [] {
      assert a + b == b;
    } else {
      ReplaceConcat(a[1..], b, c, with);
      assert (a + b)[1..] == a[1..] + b && (a + b)[0] == a[0];
      var first := if a[0] == c then with else [a[0]];
      ThreeParts(first, Replace(a[1..], c, with), Replace(b, c, with));
    }
  }

  lemma ReplaceShort(s: Text, c: QChar, with: Text)
    requires |s| <= 2
    ensures s == [] ==> Replace(s, c, with) == []
    ensures |s| == 1 ==> Replace(s, c, with) == if s[0] == c then with else s
    ensures |s| == 2 && c !in s ==> Replace(s, c, with) == s
  {
    if |s| == 2 {
      assert s == [s[0]] + s[1..];
      assert s[1..] == [s[1]] && s[1..][1..] == [];
    } else if |s| == 1 {
      assert s[1..] == [];
    }
  }

  lemma ReplaceAllConcat(a: Text, b: Text)
    ensures ReplaceAll(a + b) == ReplaceAll(a) + ReplaceAll(b)
  {
    var a1, b1 := Replace(a, BACKSLASH, [BACKSLASH, BACKSLASH]), Replace(b, BACKSLASH, [BACKSLASH, BACKSLASH]);
    var a2, b2 := Replace(a1, QUOTE, [BACKSLASH, QUOTE]), Replace(b1, QUOTE, [BACKSLASH, QUOTE]);
    var a3, b3 := Replace(a2, BS, [BACKSLASH, 'b' as int]), Replace(b2, BS, [BACKSLASH, 'b' as int]);
    var a4, b4 := Replace(a3, FF, [BACKSLASH, 'f' as int]), Replace(b3, FF, [BACKSLASH, 'f' as int]);
    var a5, b5 := Replace(a4, LF, [BACKSLASH, 'n' as int]), Replace(b4, LF, [BACKSLASH, 'n' as int]);
    var a6, b6 := Replace(a5, CR, [BACKSLASH, 'r' as int]), Replace(b5, CR, [BACKSLASH, 'r' as int]);
    ReplaceConcat(a, b, BACKSLASH, [BACKSLASH, BACKSLASH]);
    ReplaceConcat(a1, b1, QUOTE, [BACKSLASH, QUOTE]);
    ReplaceConcat(a2, b2, BS, [BACKSLASH, 'b' as int]);
    ReplaceConcat(a3, b3, FF, [BACKSLASH, 'f' as int]);
    ReplaceConcat(a4, b4, LF, [BACKSLASH, 'n' as int]);
    ReplaceConcat(a5, b5, CR, [BACKSLASH, 'r' as int]);
    ReplaceConcat(a6, b6, TAB, [BACKSLASH, 't' as int]);
  }

  lemma ReplaceAllChar(c: QChar)
    ensures ReplaceAll([c]) == EscapeChar(c)
  {
    hide Replace;
    var s1 := Replace([c], BACKSLASH, [BACKSLASH, BACKSLASH]);
    ReplaceShort([c], BACKSLASH, [BACKSLASH, BACKSLASH]);
    var s2 := Replace(s1, QUOTE, [BACKSLASH, QUOTE]);
    ReplaceShort(s1, QUOTE, [BACKSLASH, QUOTE]);
    ReplaceControls(s2);
    if c == BACKSLASH || c == QUOTE {
      assert s2 == [BACKSLASH, c];
    }
  }

  // The last five passes.
  lemma ReplaceControls(s: Text)
    requires |s| == 1 || (|s| == 2 && forall c :: c in s ==> c == BACKSLASH || c == QUOTE)
    ensures var s3 := Replace(s, BS, [BACKSLASH, 'b' as int]);
            var s4 := Replace(s3, FF, [BACKSLASH, 'f' as int]);
            var s5 := Replace(s4, LF, [BACKSLASH, 'n' as int]);
            var s6 := Replace(s5, CR, [BACKSLASH, 'r' as int]);
            Replace(s6, TAB, [BACKSLASH, 't' as int]) ==
            if |s| == 2 || s[0] == BACKSLASH || s[0] == QUOTE then s else EscapeChar(s[0])
  {
    hide Replace;
    var s3 := Replace(s, BS, [BACKSLASH, 'b' as int]);
    ReplaceShort(s, BS, [BACKSLASH, 'b' as int]);
    var s4 := Replace(s3, FF, [BACKSLASH, 'f' as int]);
    ReplaceShort(s3, FF, [BACKSLASH, 'f' as int]);
    var s5 := Replace(s4, LF, [BACKSLASH, 'n' as int]);
    ReplaceShort(s4, LF, [BACKSLASH, 'n' as int]);
    var s6 := Replace(s5, CR, [BACKSLASH, 'r' as int]);
    ReplaceShort(s5, CR, [BACKSLASH, 'r' as int]);
    ReplaceShort(s6, TAB, [BACKSLASH, 't' as int]);
  }

  /** The seven passes over the growing string, each of which sees the backslashes the
      earlier ones put in, escape every character exactly once. */
  lemma {:induction false} SanitizeEscapesOnce(s: Text)
    ensures Sanitize(s) == [QUOTE] + Escape(s) + [QUOTE]
    ensures ReplaceAll(s) == Escape(s)
  {
    if s != [] {
      assert s == [s[0]] + s[1..];
      ReplaceAllConcat([s[0]], s[1..]);
      ReplaceAllChar(s[0]);
      SanitizeEscapesOnce(s[1..]);
    }
  }

  // ---- join ----

  const LIST_SEP: Text := [COMMA, SPACE]

  /** The separator goes before an element only when something was already written. */
  function Join(list: seq<Text>, sep: Text): Text {
    if list == [] then []
    else
      var res := Join(list[..|list| - 1], sep);
      (if res != [] then res + sep else res) + list[|list| - 1]
  }

  /** Join read from the front, with the separator between any two elements. */
  function JoinFrom(list: seq<Text>, sep: Text): Text {
    if list == [] then []
    else if |list| == 1 then list[0]
    else list[0] + sep + JoinFrom(list[1..], sep)
  }

  lemma {:induction false} JoinFromLast(list: seq<Text>, last: Text, sep: Text)
    requires list != []
    ensures JoinFrom(list + [last], sep) == JoinFrom(list, sep) + sep + last
  {
    assert (list + [last])[1..] == list[1..] + [last];
    if |list| > 1 {
      JoinFromLast(list[1..], last, sep);
    }
  }

  /** With no empty element, every two neighbours are separated. */
  lemma {:induction false} JoinSeparates(list: seq<Text>, sep: Text)
    requires forall k :: 0 <= k < |list| ==> list[k] != []
    ensures Join(list, sep) == JoinFrom(list, sep)
    ensures list != [] ==> Join(list, sep) != []
  {
    if |list| > 1 {
      var front := list[..|list| - 1];
      JoinSeparates(front, sep);
      JoinFromLast(front, list[|list| - 1], sep);
      assert list == front + [list[|list| - 1]];
    } else if |list| == 1 {
      assert list[..0] == [];
    }
  }

  method JoinLoop(list: seq<Text>, sep: Text) returns (res: Text)
    ensures res == Join(list, sep)
  {
    res := [];
    for i := 0 to |list|
      invariant res == Join(list[..i], sep)
    {
      assert list[..i + 1][..i] == list[..i];
      if res != [] {
        res := res + sep;
      }
      res := res + list[i];
    }
    assert list[..|list|] == list;
  }

  // ---- serialize ----

  const KEY_SEP: Text := [SPACE, COLON, SPACE]

  function DoubleText(d: Double, lib: Lib): Option<Text> {
    match lib.number(d)
    case Some(t) => Some(WithPoint(t))
    case None => None
  }

  /** The text of a value; None is the null byte array that reports a failure. */
  function Serialize(v: Value, lib: Lib): (t: Option<Text>)
    requires lib.Valid()
    ensures t.Some? ==> t.value != []
    decreases v, 1
  {
    match v
    case Null => Some(NULL_TEXT)
    case Bool(b) => Some(if b then TRUE_TEXT else FALSE_TEXT)
    case Num(n) => Some(DecimalInt(n))
    case Dbl(d) => DoubleText(d, lib)
    case Str(s) => Some(Sanitize(s))
    case List(items) =>
      (match Texts(v, 0, lib)
       case Some(texts) => Some([LBRACKET, SPACE] + Join(texts, LIST_SEP) + [SPACE, RBRACKET])
       case None => None)
    case Map(entries) =>
      (match Pairs(v, lib.order(entries), lib)
       case Some(pairs) => Some([LBRACE, SPACE] + Join(pairs, LIST_SEP) + [SPACE, RBRACE])
       case None => None)
  }

  // The texts of the items of a list from index k on.
  function Texts(v: Value, k: nat, lib: Lib): (r: Option<seq<Text>>)
    requires lib.Valid() && v.List? && k <= |v.items|
    ensures r.Some? ==> |r.value| == |v.items| - k && forall i :: 0 <= i < |r.value| ==> r.value[i] != []
    decreases v, 0, |v.items| - k
  {
    if k == |v.items| then Some([])
    else
      match Serialize(v.items[k], lib)
      case None => None
      case Some(t) =>
        match Texts(v, k + 1, lib)
        case None => None
        case Some(rest) => Some([t] + rest)
  }

  // The "key : value" texts of the entries of a map, in the order of `keys`.
  function Pairs(v: Value, keys: seq<Text>, lib: Lib): (r: Option<seq<Text>>)
    requires lib.Valid() && v.Map? && forall k :: k in keys ==> k in v.entries
    ensures r.Some? ==> |r.value| == |keys| && forall i :: 0 <= i < |r.value| ==> r.value[i] != []
    decreases v, 0, |keys|
  {
    if keys == [] then Some([])
    else
      match Serialize(v.entries[keys[0]], lib)
      case None => None
      case Some(t) =>
        match Pairs(v, keys[1..], lib)
        case None => None
        case Some(rest) => Some([Sanitize(keys[0]) + KEY_SEP + t] + rest)
  }

  /** The serializer's loops: a failing element ends the loop and the text is dropped. */
  method SerializeValue(v: Value, lib: Lib) returns (str: Text, success: bool)
    requires lib.Valid()
    ensures Serialize(v, lib) == if success then Some(str) else None
    decreases v, 2
  {
    str, success := [], true;
    match v
    case Null => str := NULL_TEXT;
    case List(items) =>
      var values;
      values, success := SerializeItems(v, lib);
      var joined := JoinLoop(values, LIST_SEP);
      str := [LBRACKET, SPACE] + joined + [SPACE, RBRACKET];
    case Map(entries) =>
      assert Enumerates(lib.order(entries), entries);
      var pairs;
      pairs, success := SerializeEntries(v, lib.order(entries), lib);
      var joined := JoinLoop(pairs, LIST_SEP);
      str := [LBRACE, SPACE] + joined + [SPACE, RBRACE];
    case Str(s) => str := Sanitize(s);
    case Dbl(d) =>
      match lib.number(d) {
        case Some(t) => str := WithPoint(t);
        case None => success := false;
      }
    case Bool(b) => str := if b then TRUE_TEXT else FALSE_TEXT;
    case Num(n) => str := DecimalInt(n);
  }

  method SerializeItems(v: Value, lib: Lib) returns (values: seq<Text>, success: bool)
    requires lib.Valid() && v.List?
    ensures Texts(v, 0, lib) == if success then Some(values) else None
    decreases v, 1
  {
    values, success := [], true;
    for i := 0 to |v.items|
      invariant success && Texts(v, 0, lib) == Prepend(values, Texts(v, i, lib))
    {
      var text, ok := SerializeValue(v.items[i], lib);
      if !ok {
        success := false;
        return;
      }
      PrependStep(values, text, Texts(v, i + 1, lib));
      values := values + [text];
    }
    assert values + [] == values;
  }

  method SerializeEntries(v: Value, keys: seq<Text>, lib: Lib) returns (pairs: seq<Text>, success: bool)
    requires lib.Valid() && v.Map? && forall k :: k in keys ==> k in v.entries
    ensures Pairs(v, keys, lib) == if success then Some(pairs) else None
    decreases v, 1
  {
    pairs, success := [], true;
    assert keys[0..] == keys;
    for i := 0 to |keys|
      invariant success && Pairs(v, keys, lib) == Prepend(pairs, Pairs(v, keys[i..], lib))
    {
      var text, ok := SerializeValue(v.entries[keys[i]], lib);
      assert keys[i..][1..] == keys[i + 1..];
      if !ok {
        success := false;
        return;
      }
      var pair := Sanitize(keys[i]) + KEY_SEP + text;
      PrependStep(pairs, pair, Pairs(v, keys[i + 1..], lib));
      pairs := pairs + [pair];
    }
    assert pairs + [] == pairs;
  }

  function Prepend(done: seq<Text>, rest: Option<seq<Text>>): (r: Option<seq<Text>>)
    ensures done == [] ==> r == rest
  {
    if rest.Some? then
      assert done == [] ==> done + rest.value == rest.value;
      Some(done + rest.value)
    else None
  }

  lemma PrependStep(done: seq<Text>, t: Text, rest: Option<seq<Text>>)
    ensures Prepend(done, Prepend([t], rest)) == Prepend(done + [t], rest)
  {
    if rest.Some? {
      assert done + ([t] + rest.value) == done + [t] + rest.value;
    }
  }
}
