/** Parsing what the serializer wrote, with the conversion to UTF-8 bytes in between. */
module JsonRoundTrip {
  import opened Common
  import opened JsonText
  import opened JsonConversion
  import opened JsonSerializer
  import opened JsonParser
  import opened JsonSyntax
  import opened JsonLocal
  import opened JsonWritten

  /** The bytes of the text, read again up to the first zero byte: serializeStr(), and the
      wrapper json::serialize(). */
  function SerializeStr(v: Value, lib: Lib, how: Reading): Option<Text>
    requires lib.Valid()
  {
    match Serialize(v, lib)
    case None => None
    case Some(t) => Some(Until(Convert(t, lib.lone, how), 0))
  }

  /** All strings and keys of a tree satisfy a predicate. */
  ghost predicate Every(v: Value, p: Text -> bool) {
    match v
    case Str(s) => p(s)
    case List(items) => forall i :: 0 <= i < |items| ==> Every(items[i], p)
    case Map(entries) => forall k :: k in entries ==> p(k) && Every(entries[k], p)
    case _ => true
  }

  function Surviving(how: Reading): Text -> bool {
    s => Survives(s, how)
  }

  const WITHOUT_NUL: Text -> bool := s => 0 !in s

  /** No string and no key has a zero character, and all survive the conversion: without lone
      surrogates, or for the wrapper of Qt 4 as ASCII. */
  ghost predicate Carries(v: Value, how: Reading) {
    Every(v, WITHOUT_NUL) && Every(v, Surviving(how))
  }

  // ---- conversion of concrete syntax ----

  function PlainPieces(t: Text): (ps: seq<Piece>) {
    if t == [] then [] else [Plain(t[0])] + PlainPieces(t[1..])
  }

  predicate StartsPlainPair(ps: seq<Piece>) {
    |ps| > 1 && ps[0].Plain? && ps[1].Plain? && High(ps[0].c) && Low(ps[1].c)
  }

  function ConvertPieces(ps: seq<Piece>, lone: QChar, how: Reading): seq<Piece> {
    if ps == [] then []
    else if StartsPlainPair(ps) then
      PlainPieces(PairImage(ps[0].c, ps[1].c, how)) + ConvertPieces(ps[2..], lone, how)
    else
      (if ps[0].Plain? then PlainPieces(UnitImage(ps[0].c, lone, how)) else [ps[0]]) +
      ConvertPieces(ps[1..], lone, how)
  }

  function ConvertNode(n: Node, lone: QChar, how: Reading): Node {
    match n
    case StringNode(pieces) => StringNode(ConvertPieces(pieces, lone, how))
    case ArrayNode(items) => ArrayNode(ConvertItems(items, lone, how))
    case ObjectNode(members) => ObjectNode(ConvertMembers(members, lone, how))
    case _ => n
  }

  function ConvertItems(it: Items, lone: QChar, how: Reading): Items {
    match it
    case ItemsEnd(_) => it
    case Item(comma, blank, node, rest) =>
      Item(comma, blank, ConvertNode(node, lone, how), ConvertItems(rest, lone, how))
  }

  function ConvertMembers(m: Members, lone: QChar, how: Reading): Members {
    match m
    case MembersEnd(_) => m
    case Member(comma, blank, name, colon, gap, node, rest) =>
      Member(comma, blank, ConvertPieces(name, lone, how), colon, gap, ConvertNode(node, lone, how),
             ConvertMembers(rest, lone, how))
  }

  // ---- strings ----

  lemma {:induction false} PiecesConcat(a: seq<Piece>, b: seq<Piece>)
    ensures PiecesText(a + b) == PiecesText(a) + PiecesText(b)
    ensures GoodPieces(a) && GoodPieces(b) ==>
              GoodPieces(a + b) && PiecesValue(a + b) == PiecesValue(a) + PiecesValue(b)
    decreases |a|
  {
    hide GoodPiece, PieceText, PieceChar;
    if a == [] {
      assert a + b == b;
    } else {
      PiecesConcat(a[1..], b);
      assert (a + b)[1..] == a[1..] + b && (a + b)[0] == a[0];
      ThreeParts(PieceText(a[0]), PiecesText(a[1..]), PiecesText(b));
      if GoodPieces(a) && GoodPieces(b) {
        GoodConcat(a, b);
        assert GoodPieces(a[1..]);
        ThreeParts([PieceChar(a[0])], PiecesValue(a[1..]), PiecesValue(b));
      }
    }
  }

  lemma GoodConcat(a: seq<Piece>, b: seq<Piece>)
    requires GoodPieces(a) && GoodPieces(b)
    ensures GoodPieces(a + b)
  {
    hide GoodPiece;
  }

  lemma {:induction false} PlainPiecesRead(t: Text)
    ensures PiecesText(PlainPieces(t)) == t
    ensures QUOTE !in t && BACKSLASH !in t ==> GoodPieces(PlainPieces(t)) && PiecesValue(PlainPieces(t)) == t
  {
    if t != [] {
      PlainPiecesRead(t[1..]);
      assert t == [t[0]] + t[1..] && PlainPieces(t)[1..] == PlainPieces(t[1..]);
    }
  }

  lemma ImageIsPlain(c: QChar, lone: QChar, how: Reading)
    requires Replaces(lone) && c != QUOTE && c != BACKSLASH
    ensures QUOTE !in UnitImage(c, lone, how) && BACKSLASH !in UnitImage(c, lone, how)
  {
  }

  lemma PairImageIsPlain(high: QChar, low: QChar, how: Reading)
    requires High(high) && Low(low)
    ensures QUOTE !in PairImage(high, low, how) && BACKSLASH !in PairImage(high, low, how)
  {
  }

  // How the text of some pieces begins.
  lemma PiecesStart(ps: seq<Piece>)
    requires GoodPieces(ps) && ps != []
    ensures PiecesText(ps) == PieceText(ps[0]) + PiecesText(ps[1..])
    ensures PiecesText(ps) != [] && PiecesText(ps)[0] == (if ps[0].Plain? then ps[0].c else BACKSLASH)
    ensures ps[0].Plain? ==> PieceText(ps[0]) == [ps[0].c]
    ensures !ps[0].Plain? ==> Ascii(PieceText(ps[0]))
    ensures GoodPieces(ps[1..])
  {
    assert GoodPiece(ps[0]);
  }

  lemma NoPieces(lone: QChar, how: Reading)
    ensures PiecesText([]) == [] && Convert([], lone, how) == [] && PiecesValue([]) == []
  {
  }

  /** Converting the text of a string converts its plain characters. */
  lemma {:induction false} ConvertPiecesText(ps: seq<Piece>, lone: QChar, how: Reading)
    requires GoodPieces(ps) && Replaces(lone)
    ensures GoodPieces(ConvertPieces(ps, lone, how))
    ensures PiecesText(ConvertPieces(ps, lone, how)) == Convert(PiecesText(ps), lone, how)
    decreases |ps|
  {
    hide PiecesText, Convert, GoodPiece, PairImage, UnitImage, PlainPieces, Replaces, PieceText;
    if ps == [] {
      NoPieces(lone, how);
    } else {
      PiecesStart(ps);
      var n := if StartsPlainPair(ps) then 2 else 1;
      ConvertPiecesText(ps[n..], lone, how);
      if n == 2 {
        ConvertPair(ps, lone, how);
      } else if ps[0].Plain? {
        ConvertPlain(ps, lone, how);
      } else {
        ConvertAfterAscii(PieceText(ps[0]), PiecesText(ps[1..]), lone, how);
        ConvertOther(ps, lone, how);
      }
    }
  }

  lemma ConvertOther(ps: seq<Piece>, lone: QChar, how: Reading)
    requires GoodPieces(ps) && ps != [] && !ps[0].Plain? && GoodPieces(ConvertPieces(ps[1..], lone, how))
    ensures GoodPieces(ConvertPieces(ps, lone, how))
    ensures PiecesText(ConvertPieces(ps, lone, how)) ==
            PieceText(ps[0]) + PiecesText(ConvertPieces(ps[1..], lone, how))
  {
    assert GoodPiece(ps[0]);
    var rest := ConvertPieces(ps[1..], lone, how);
    assert ([ps[0]] + rest)[1..] == rest;
    GoodConcat([ps[0]], rest);
  }

  lemma ConvertPlain(ps: seq<Piece>, lone: QChar, how: Reading)
    requires GoodPieces(ps) && ps != [] && ps[0].Plain? && !StartsPlainPair(ps) && Replaces(lone)
    requires GoodPieces(ConvertPieces(ps[1..], lone, how))
    requires PiecesText(ConvertPieces(ps[1..], lone, how)) == Convert(PiecesText(ps[1..]), lone, how)
    ensures GoodPieces(ConvertPieces(ps, lone, how))
    ensures PiecesText(ConvertPieces(ps, lone, how)) == Convert(PiecesText(ps), lone, how)
  {
    assert GoodPiece(ps[0]);
    PiecesStart(ps);
    ImageIsPlain(ps[0].c, lone, how);
    PlainPiecesRead(UnitImage(ps[0].c, lone, how));
    hide PiecesText, Convert, PairImage, UnitImage, PlainPieces;
    PiecesConcat(PlainPieces(UnitImage(ps[0].c, lone, how)), ConvertPieces(ps[1..], lone, how));
    if |ps| > 1 {
      PiecesStart(ps[1..]);
    } else {
      assert ps[1..] == [];
      NoPieces(lone, how);
    }
    assert PiecesText(ps)[1..] == PiecesText(ps[1..]);
    assert !StartsPair(PiecesText(ps));
    ConvertStep(PiecesText(ps), lone, how);
  }

  lemma ConvertPair(ps: seq<Piece>, lone: QChar, how: Reading)
    requires GoodPieces(ps) && StartsPlainPair(ps)
    requires GoodPieces(ConvertPieces(ps[2..], lone, how))
    requires PiecesText(ConvertPieces(ps[2..], lone, how)) == Convert(PiecesText(ps[2..]), lone, how)
    ensures GoodPieces(ConvertPieces(ps, lone, how))
    ensures PiecesText(ConvertPieces(ps, lone, how)) == Convert(PiecesText(ps), lone, how)
  {
    PairImageIsPlain(ps[0].c, ps[1].c, how);
    PlainPiecesRead(PairImage(ps[0].c, ps[1].c, how));
    hide PiecesText, Convert, PairImage, UnitImage, PlainPieces;
    PiecesConcat(PlainPieces(PairImage(ps[0].c, ps[1].c, how)), ConvertPieces(ps[2..], lone, how));
    PiecesStart(ps);
    PiecesStart(ps[1..]);
    assert ps[1..][1..] == ps[2..];
    assert PiecesText(ps) == [ps[0].c] + ([ps[1].c] + PiecesText(ps[2..]));
    assert PiecesText(ps)[2..] == PiecesText(ps[2..]);
    ConvertStep(PiecesText(ps), lone, how);
  }

  lemma ConvertQuoted(ps: seq<Piece>, lone: QChar, how: Reading)
    requires GoodPieces(ps) && Replaces(lone)
    ensures Convert(Quoted(ps), lone, how) == Quoted(ConvertPieces(ps, lone, how))
  {
    hide Convert, PiecesText;
    ConvertPiecesText(ps, lone, how);
    ConvertAfterAscii([QUOTE], PiecesText(ps) + [QUOTE], lone, how);
    ConvertConcat(PiecesText(ps), [QUOTE], lone, how);
    ConvertAscii([QUOTE], lone, how);
  }

  /** What a serialized string is read as after the conversion. */
  lemma {:induction false} ConvertedString(s: Text, lone: QChar, how: Reading)
    requires Replaces(lone)
    ensures GoodPieces(ConvertPieces(PiecesOf(s), lone, how))
    ensures PiecesValue(ConvertPieces(PiecesOf(s), lone, how)) == Convert(s, lone, how)
    decreases |s|
  {
    hide Convert, PairImage, UnitImage, PlainPieces, GoodPiece, PiecesValue, Replaces;
    var ps := PiecesOf(s);
    if s == [] {
      NoPieces(lone, how);
    } else {
      var n := if StartsPair(s) then 2 else 1;
      PairStarts(s);
      assert ps[n..] == PiecesOf(s[n..]);
      ConvertedString(s[n..], lone, how);
      ConvertStep(s, lone, how);
      FirstConverted(s, n, lone, how);
      var first := if n == 2 then PlainPieces(PairImage(s[0], s[1], how))
        else if ps[0].Plain? then PlainPieces(UnitImage(s[0], lone, how)) else [ps[0]];
      PiecesConcat(first, ConvertPieces(ps[n..], lone, how));
    }
  }

  lemma PairStarts(s: Text)
    ensures StartsPlainPair(PiecesOf(s)) <==> StartsPair(s)
    ensures s != [] && PiecesOf(s)[0].Plain? ==> PiecesOf(s)[0].c == s[0] && s[0] != QUOTE && s[0] != BACKSLASH
    ensures StartsPair(s) ==> PiecesOf(s)[0] == Plain(s[0]) && PiecesOf(s)[1] == Plain(s[1])
  {
  }

  lemma FirstConverted(s: Text, n: nat, lone: QChar, how: Reading)
    requires s != [] && Replaces(lone) && n == if StartsPair(s) then 2 else 1
    ensures var p := PieceOf(s[0]);
            var image := if n == 2 then PairImage(s[0], s[1], how) else UnitImage(s[0], lone, how);
            var first := if n == 2 || p.Plain? then PlainPieces(image) else [p];
            GoodPieces(first) && PiecesValue(first) == image
  {
    if n == 2 {
      PairImageIsPlain(s[0], s[1], how);
      PlainPiecesRead(PairImage(s[0], s[1], how));
    } else if PieceOf(s[0]).Plain? {
      ImageIsPlain(s[0], lone, how);
      PlainPiecesRead(UnitImage(s[0], lone, how));
    } else {
      PieceOfReads(s[0]);
      hide PieceChar, GoodPiece;
      var p := PieceOf(s[0]);
      assert [p][1..] == [] && PiecesValue([p]) == [PieceChar(p)] + PiecesValue([]);
      assert [s[0]] + [] == [s[0]];
    }
  }

  // ---- trees ----

  lemma BlankIsAscii(b: Text)
    requires Blank(b)
    ensures Ascii(b)
  {
  }

  // What stands after a value does not begin with a low surrogate.
  lemma ItemsStart(it: Items)
    requires GoodItems(it)
    ensures WrittenItems(it, false) != [] && WrittenItems(it, false)[0] < 0x80
  {
    hide Written;
  }

  lemma MembersStart(m: Members)
    requires GoodMembers(m)
    ensures WrittenMembers(m, false) != [] && WrittenMembers(m, false)[0] < 0x80
  {
    hide Written, Quoted, Named;
  }

  lemma SeparatorIsAscii(comma: Text, first: bool)
    requires Blank(comma)
    ensures Ascii(Separator(comma, first))
  {
  }

  /** Converting the text of a tree converts its strings and touches nothing else. */
  lemma {:induction false} ConvertWritten(n: Node, lone: QChar, how: Reading)
    requires Good(n) && Replaces(lone)
    ensures Good(ConvertNode(n, lone, how)) && Written(ConvertNode(n, lone, how)) == Convert(Written(n), lone, how)
    decreases n
  {
    hide Convert, WrittenItems, WrittenMembers, Quoted, Replaces, ConvertPieces;
    match n
    case NullNode => ConvertAscii(NULL_TEXT, lone, how);
    case BoolNode(b) => ConvertAscii(if b then TRUE_TEXT else FALSE_TEXT, lone, how);
    case NumberNode(lexeme) => ConvertAscii(lexeme, lone, how);
    case StringNode(pieces) =>
      ConvertPiecesText(pieces, lone, how);
      ConvertQuoted(pieces, lone, how);
    case ArrayNode(items) =>
      ConvertWrittenItems(items, true, lone, how);
      ConvertAfterAscii([LBRACKET], WrittenItems(items, true), lone, how);
    case ObjectNode(members) =>
      ConvertWrittenMembers(members, true, lone, how);
      ConvertAfterAscii([LBRACE], WrittenMembers(members, true), lone, how);
  }

  lemma {:induction false} ConvertWrittenItems(it: Items, first: bool, lone: QChar, how: Reading)
    requires GoodItems(it) && Replaces(lone)
    ensures GoodItems(ConvertItems(it, lone, how))
    ensures WrittenItems(ConvertItems(it, lone, how), first) == Convert(WrittenItems(it, first), lone, how)
    decreases it
  {
    hide Convert, Written, Good, Separator, Replaces, Blank, Ascii;
    match it
    case ItemsEnd(blank) => ConvertEnd(blank, RBRACKET, lone, how);
    case Item(comma, blank, node, rest) =>
      var text, more := Written(node), WrittenItems(rest, false);
      ConvertWritten(node, lone, how);
      ConvertWrittenItems(rest, false, lone, how);
      ItemsStart(rest);
      ConvertBlanks(comma, blank, first, text + more, lone, how);
      ConvertConcat(text, more, lone, how);
  }

  lemma ConvertEnd(blank: Text, close: QChar, lone: QChar, how: Reading)
    requires Blank(blank) && close < 0x80
    ensures Convert(blank + [close], lone, how) == blank + [close]
  {
    ConvertAscii(blank + [close], lone, how);
  }

  lemma ConvertBlanks(comma: Text, blank: Text, first: bool, rest: Text, lone: QChar, how: Reading)
    requires Blank(comma) && Blank(blank)
    ensures Convert(Separator(comma, first) + (blank + rest), lone, how) ==
            Separator(comma, first) + (blank + Convert(rest, lone, how))
  {
    hide Convert, Separator;
    SeparatorIsAscii(comma, first);
    BlankIsAscii(blank);
    ConvertAfterAscii(Separator(comma, first), blank + rest, lone, how);
    ConvertAfterAscii(blank, rest, lone, how);
  }

  lemma ConvertNamed(ps: seq<Piece>, colon: Text, gap: Text, rest: Text, lone: QChar, how: Reading)
    requires GoodPieces(ps) && Replaces(lone) && Blank(colon) && Blank(gap)
    ensures Convert(Named(Quoted(ps), colon, gap, rest), lone, how) ==
            Named(Quoted(ConvertPieces(ps, lone, how)), colon, gap, Convert(rest, lone, how))
  {
    var tail := colon + ([COLON] + (gap + rest));
    QuotedEnds(ps);
    hide Convert, Quoted, Replaces;
    ConvertQuoted(ps, lone, how);
    BlankIsAscii(colon);
    BlankIsAscii(gap);
    ConvertConcat(Quoted(ps), tail, lone, how);
    ConvertAfterAscii(colon, [COLON] + (gap + rest), lone, how);
    ConvertAfterAscii([COLON], gap + rest, lone, how);
    ConvertAfterAscii(gap, rest, lone, how);
  }

  lemma QuotedEnds(ps: seq<Piece>)
    ensures Quoted(ps) != [] && Quoted(ps)[|Quoted(ps)| - 1] == QUOTE
  {
  }

  lemma {:induction false} ConvertWrittenMembers(m: Members, first: bool, lone: QChar, how: Reading)
    requires GoodMembers(m) && Replaces(lone)
    ensures GoodMembers(ConvertMembers(m, lone, how))
    ensures WrittenMembers(ConvertMembers(m, lone, how), first) == Convert(WrittenMembers(m, first), lone, how)
    decreases m
  {
    hide Convert, Written, Good, Separator, Replaces, Blank, Ascii, Named, Quoted, GoodPieces, ConvertPieces;
    match m
    case MembersEnd(blank) => ConvertEnd(blank, RBRACE, lone, how);
    case Member(comma, blank, name, colon, gap, node, rest) =>
      var text, more := Written(node), WrittenMembers(rest, false);
      ConvertWritten(node, lone, how);
      ConvertPiecesText(name, lone, how);
      ConvertWrittenMembers(rest, false, lone, how);
      MembersStart(rest);
      ConvertBlanks(comma, blank, first, Named(Quoted(name), colon, gap, text + more), lone, how);
      ConvertNamed(name, colon, gap, text + more, lone, how);
      ConvertConcat(text, more, lone, how);
  }

  // ---- what a tree is read as ----

  /** The tree that the converted text of a tree means to the parser. */
  function Image(v: Value, lib: Lib, how: Reading): Value
    requires lib.Valid() && Serialize(v, lib).Some?
  {
    SerializedIsWritten(v, lib);
    ConvertWritten(NodeOf(v, lib), lib.lone, how);
    NodeValue(ConvertNode(NodeOf(v, lib), lib.lone, how), lib, false)
  }

  lemma {:induction false} ItemsImage(v: Value, k: nat, lib: Lib, how: Reading)
    requires lib.Valid() && v.List? && k <= |v.items| && Texts(v, k, lib).Some?
    requires forall i :: k <= i < |v.items| ==> Serialize(v.items[i], lib).Some?
    ensures var it := ConvertItems(ItemsOf(v, k, lib), lib.lone, how);
            && GoodItems(it) && |ItemsValue(it, lib, false)| == |v.items| - k
            && forall i :: k <= i < |v.items| ==> ItemsValue(it, lib, false)[i - k] == Image(v.items[i], lib, how)
    decreases |v.items| - k
  {
    hide Serialize, Written, Good, NodeValue, ConvertNode, NodeOf, Image;
    if k < |v.items| {
      TextsStep(v, k, lib);
      ImageIs(v.items[k], lib, how);
      ItemsImage(v, k + 1, lib, how);
    }
  }

  function KeySet(keys: seq<Text>): set<Text> {
    set k | k in keys
  }

  ghost predicate AllSerialize(v: Value, keys: seq<Text>, lib: Lib)
    requires lib.Valid() && v.Map?
  {
    forall k :: k in keys ==> k in v.entries && Serialize(v.entries[k], lib).Some?
  }

  function ImageKeys(v: Value, keys: seq<Text>, lib: Lib, how: Reading): map<Text, Value>
    requires lib.Valid() && v.Map? && AllSerialize(v, keys, lib)
  {
    map k | k in keys :: Image(v.entries[k], lib, how)
  }

  predicate Fixed(keys: seq<Text>, lone: QChar, how: Reading) {
    forall k :: k in keys ==> Convert(k, lone, how) == k
  }

  lemma ImageKeysStep(v: Value, keys: seq<Text>, lib: Lib, how: Reading)
    requires lib.Valid() && v.Map? && AllSerialize(v, keys, lib) && keys != []
    ensures AllSerialize(v, keys[1..], lib)
    ensures ImageKeys(v, keys, lib, how) ==
            map[keys[0] := Image(v.entries[keys[0]], lib, how)] + ImageKeys(v, keys[1..], lib, how)
  {
    hide Image, Serialize;
  }

  lemma ImagesStep(keys: seq<Text>, lone: QChar, how: Reading)
    requires keys != []
    ensures Images(KeySet(keys), lone, how) ==
            {Convert(keys[0], lone, how)} + Images(KeySet(keys[1..]), lone, how)
    ensures Fixed(keys, lone, how) ==> Convert(keys[0], lone, how) == keys[0] && Fixed(keys[1..], lone, how)
  {
    hide Convert;
    assert KeySet(keys) == {keys[0]} + KeySet(keys[1..]);
  }

  lemma {:induction false} MembersImage(v: Value, keys: seq<Text>, first: bool, lib: Lib, how: Reading)
    requires lib.Valid() && v.Map? && AllSerialize(v, keys, lib) && Pairs(v, keys, lib).Some?
    ensures var m := ConvertMembers(MembersOf(v, keys, first, lib), lib.lone, how);
            && GoodMembers(m)
            && MembersValue(m, lib, false).Keys == Images(KeySet(keys), lib.lone, how)
            && (Fixed(keys, lib.lone, how) ==> MembersValue(m, lib, false) == ImageKeys(v, keys, lib, how))
    decreases |keys|
  {
    hide Serialize, Written, Good, NodeValue, ConvertNode, NodeOf, ConvertPieces, PiecesValue, GoodPieces;
    hide Convert, Image, ImageKeys, Images, Fixed;
    if keys == [] {
      NoKeys(v, lib, how);
    } else {
      PairsStep(v, keys, lib);
      ConvertedString(keys[0], lib.lone, how);
      ImageKeysStep(v, keys, lib, how);
      ImagesStep(keys, lib.lone, how);
      MembersImage(v, keys[1..], false, lib, how);
      ImageIs(v.entries[keys[0]], lib, how);
    }
  }

  lemma NoKeys(v: Value, lib: Lib, how: Reading)
    requires lib.Valid() && v.Map?
    ensures Images(KeySet([]), lib.lone, how) == {} && AllSerialize(v, [], lib) && ImageKeys(v, [], lib, how) == map[]
  {
  }

  lemma ImageIs(v: Value, lib: Lib, how: Reading)
    requires lib.Valid() && Serialize(v, lib).Some?
    ensures Good(ConvertNode(NodeOf(v, lib), lib.lone, how))
    ensures NodeValue(ConvertNode(NodeOf(v, lib), lib.lone, how), lib, false) == Image(v, lib, how)
  {
    hide Serialize, Written, Good, NodeValue, ConvertNode, NodeOf;
    SerializedIsWritten(v, lib);
    ConvertWritten(NodeOf(v, lib), lib.lone, how);
  }

  lemma ListImage(v: Value, lib: Lib, how: Reading)
    requires lib.Valid() && v.List? && Serialize(v, lib).Some?
    ensures var image := Image(v, lib, how);
            && image.List? && |image.items| == |v.items|
            && forall i :: 0 <= i < |v.items| ==>
                 Serialize(v.items[i], lib).Some? && image.items[i] == Image(v.items[i], lib, how)
  {
    forall i | 0 <= i < |v.items| ensures Serialize(v.items[i], lib).Some? {
      TextsSerialize(v, 0, i, lib);
    }
    ItemsImage(v, 0, lib, how);
    hide Serialize, Written, NodeValue, Convert;
  }

  lemma MapImage(v: Value, lib: Lib, how: Reading)
    requires lib.Valid() && v.Map? && Serialize(v, lib).Some?
    ensures var keys, image := lib.order(v.entries), Image(v, lib, how);
            && Enumerates(keys, v.entries) && AllSerialize(v, keys, lib)
            && image.Map? && image.entries.Keys == Images(KeySet(keys), lib.lone, how)
            && (Fixed(keys, lib.lone, how) ==> image.entries == ImageKeys(v, keys, lib, how))
  {
    hide Serialize, Convert, Fixed, ImageKeys, Images, Image;
    EntriesSerialize(v, lib);
    MembersImage(v, lib.order(v.entries), true, lib, how);
    MapImageIs(v, lib, how);
  }

  lemma EntriesSerialize(v: Value, lib: Lib)
    requires lib.Valid() && v.Map? && Serialize(v, lib).Some?
    ensures var keys := lib.order(v.entries);
            Enumerates(keys, v.entries) && Pairs(v, keys, lib).Some? && AllSerialize(v, keys, lib)
  {
    var keys := lib.order(v.entries);
    MapText(v, lib);
    hide Serialize, Pairs;
    forall k | k in keys ensures Serialize(v.entries[k], lib).Some? {
      PairsSerialize(v, keys, k, lib);
    }
  }

  lemma MapImageIs(v: Value, lib: Lib, how: Reading)
    requires lib.Valid() && v.Map? && Serialize(v, lib).Some?
    requires Enumerates(lib.order(v.entries), v.entries) && Pairs(v, lib.order(v.entries), lib).Some?
    ensures var m := ConvertMembers(MembersOf(v, lib.order(v.entries), true, lib), lib.lone, how);
            GoodMembers(m) && Image(v, lib, how) == Map(MembersValue(m, lib, false))
  {
    ImageIs(v, lib, how);
    hide Serialize, Pairs, Image, GoodMembers, MembersValue, MembersOf, ConvertMembers;
  }

  /** A tree whose strings survive is read as it would be without the conversion, and no other
      is read as itself. */
  lemma {:induction false} ImageIff(v: Value, lib: Lib, how: Reading)
    requires lib.Valid() && Serialize(v, lib).Some?
    ensures Every(v, Surviving(how)) ==> Image(v, lib, how) == Reread(v, lib)
    ensures Image(v, lib, how) == v ==> Every(v, Surviving(how))
    decreases v
  {
    match v
    case List(items) =>
      ListImage(v, lib, how);
      hide Image, Serialize;
      forall i | 0 <= i < |items|
        ensures Every(items[i], Surviving(how)) ==> Image(items[i], lib, how) == Reread(items[i], lib)
        ensures Image(items[i], lib, how) == items[i] ==> Every(items[i], Surviving(how))
      {
        ImageIff(items[i], lib, how);
      }
      if Every(v, Surviving(how)) {
        assert Image(v, lib, how).items == Reread(v, lib).items;
      }
    case Map(entries) =>
      MapImage(v, lib, how);
      hide Image, Serialize;
      forall k | k in entries
        ensures Every(entries[k], Surviving(how)) ==> Image(entries[k], lib, how) == Reread(entries[k], lib)
        ensures Image(entries[k], lib, how) == entries[k] ==> Every(entries[k], Surviving(how))
      {
        ImageIff(entries[k], lib, how);
      }
      MapImageIff(v, lib, how);
    case Str(s) =>
      ConvertedString(s, lib.lone, how);
      ConvertKeeps(s, lib.lone, how);
    case _ => LeafIsWritten(v, lib);
  }

  lemma SurvivingIsFixed(keys: seq<Text>, lone: QChar, how: Reading)
    requires Replaces(lone)
    ensures Fixed(keys, lone, how) <==> forall k :: k in keys ==> Surviving(how)(k)
  {
    hide Convert, Survives;
    forall k | k in keys ensures Convert(k, lone, how) == k <==> Survives(k, how) {
      ConvertKeeps(k, lone, how);
    }
  }

  lemma MapImageIff(v: Value, lib: Lib, how: Reading)
    requires lib.Valid() && v.Map? && Serialize(v, lib).Some?
    requires AllSerialize(v, lib.order(v.entries), lib) && Enumerates(lib.order(v.entries), v.entries)
    requires forall k :: k in v.entries ==>
      && (Every(v.entries[k], Surviving(how)) ==> Image(v.entries[k], lib, how) == Reread(v.entries[k], lib))
      && (Image(v.entries[k], lib, how) == v.entries[k] ==> Every(v.entries[k], Surviving(how)))
    ensures Every(v, Surviving(how)) ==> Image(v, lib, how) == Reread(v, lib)
    ensures Image(v, lib, how) == v ==> Every(v, Surviving(how))
  {
    hide Serialize, Image, Convert, Images, Survives;
    var keys := lib.order(v.entries);
    MapImage(v, lib, how);
    SurvivingIsFixed(keys, lib.lone, how);
    assert KeySet(keys) == v.entries.Keys;
    if Image(v, lib, how) == v {
      forall k | k in keys ensures Surviving(how)(k) {
        OwnImageSurvives(v.entries.Keys, k, lib.lone, how);
      }
    } else if Every(v, Surviving(how)) {
      assert ImageKeys(v, keys, lib, how) == Reread(v, lib).entries;
    }
  }

  // ---- zero characters ----

  lemma {:induction false} EscapeNul(s: Text)
    ensures 0 in Escape(s) <==> 0 in s
  {
    if s != [] {
      EscapeNul(s[1..]);
      assert s == [s[0]] + s[1..];
      assert 0 in EscapeChar(s[0]) <==> s[0] == 0 by {
        if s[0] == 0 {
          assert EscapeChar(s[0]) == [0];
        }
      }
    }
  }

  lemma QuotedNul(s: Text)
    ensures 0 in Quoted(PiecesOf(s)) <==> 0 in s
  {
    PiecesOfReads(s);
    EscapeNul(s);
    hide PiecesText, Escape;
  }

  lemma NamedNul(name: Text, rest: Text)
    ensures 0 in Named(name, [SPACE], [SPACE], rest) <==> 0 in name || 0 in rest
  {
  }

  lemma SeparatedNul(first: bool, rest: Text)
    ensures 0 in Separator([], first) + ([SPACE] + rest) <==> 0 in rest
  {
  }

  lemma {:induction false} NulIff(v: Value, lib: Lib)
    requires lib.Valid() && Serialize(v, lib).Some?
    ensures 0 !in Written(NodeOf(v, lib)) <==> Every(v, WITHOUT_NUL)
    decreases v, 1
  {
    hide Texts, Pairs, WrittenItems, WrittenMembers, Every, EveryFrom, EveryOf;
    match v
    case List(items) =>
      ItemsNul(v, 0, lib);
      EveryItem(v);
    case Map(entries) =>
      MapText(v, lib);
      MembersNul(v, lib.order(entries), true, lib);
      EveryEntry(v, lib.order(entries));
    case _ => LeafNul(v, lib);
  }

  lemma LeafNul(v: Value, lib: Lib)
    requires lib.Valid() && Serialize(v, lib).Some? && !v.List? && !v.Map?
    ensures 0 !in Written(NodeOf(v, lib)) <==> Every(v, WITHOUT_NUL)
  {
    LeafIsWritten(v, lib);
    if v.Str? {
      QuotedNul(v.s);
      hide Quoted;
    }
  }

  ghost predicate EveryFrom(v: Value, k: nat)
    requires v.List?
  {
    forall i :: k <= i < |v.items| ==> Every(v.items[i], WITHOUT_NUL)
  }

  ghost predicate EveryOf(v: Value, keys: seq<Text>)
    requires v.Map?
  {
    forall k :: k in keys && k in v.entries ==> 0 !in k && Every(v.entries[k], WITHOUT_NUL)
  }

  lemma EveryItem(v: Value)
    requires v.List?
    ensures Every(v, WITHOUT_NUL) <==> EveryFrom(v, 0)
  {
  }

  lemma EveryEntry(v: Value, keys: seq<Text>)
    requires v.Map? && forall k :: k in keys <==> k in v.entries
    ensures Every(v, WITHOUT_NUL) <==> EveryOf(v, keys)
  {
  }

  lemma {:induction false} ItemsNul(v: Value, k: nat, lib: Lib)
    requires lib.Valid() && v.List? && k <= |v.items| && Texts(v, k, lib).Some?
    ensures 0 !in WrittenItems(ItemsOf(v, k, lib), k == 0) <==> EveryFrom(v, k)
    decreases v, 0, |v.items| - k
  {
    hide Serialize, Every, Written, NodeOf, Separator;
    if k < |v.items| {
      TextsStep(v, k, lib);
      NulIff(v.items[k], lib);
      ItemsNul(v, k + 1, lib);
      SeparatedNul(k == 0, Written(NodeOf(v.items[k], lib)) + WrittenItems(ItemsOf(v, k + 1, lib), false));
      assert EveryFrom(v, k) <==> Every(v.items[k], WITHOUT_NUL) && EveryFrom(v, k + 1);
    }
  }

  lemma {:induction false} MembersNul(v: Value, keys: seq<Text>, first: bool, lib: Lib)
    requires lib.Valid() && v.Map? && (forall k :: k in keys ==> k in v.entries) && Pairs(v, keys, lib).Some?
    ensures 0 !in WrittenMembers(MembersOf(v, keys, first, lib), first) <==> EveryOf(v, keys)
    decreases v, 0, |keys|
  {
    hide Serialize, Every, Written, NodeOf, Quoted, Named, Separator;
    if keys != [] {
      PairsStep(v, keys, lib);
      QuotedNul(keys[0]);
      NulIff(v.entries[keys[0]], lib);
      MembersNul(v, keys[1..], false, lib);
      var rest := Written(NodeOf(v.entries[keys[0]], lib)) + WrittenMembers(MembersOf(v, keys[1..], false, lib), false);
      NamedNul(Quoted(PiecesOf(keys[0])), rest);
      SeparatedNul(first, Named(Quoted(PiecesOf(keys[0])), [SPACE], [SPACE], rest));
      EveryFirst(v, keys);
      hide EveryOf;
    }
  }

  lemma EveryFirst(v: Value, keys: seq<Text>)
    requires v.Map? && keys != [] && keys[0] in v.entries
    ensures EveryOf(v, keys) <==>
            0 !in keys[0] && Every(v.entries[keys[0]], WITHOUT_NUL) && EveryOf(v, keys[1..])
  {
    hide Every;
    if EveryOf(v, keys[1..]) && 0 !in keys[0] && Every(v.entries[keys[0]], WITHOUT_NUL) {
      forall k | k in keys && k in v.entries ensures 0 !in k && Every(v.entries[k], WITHOUT_NUL) {
        assert k == keys[0] || k in keys[1..];
      }
    }
  }

  // ---- main results ----

  lemma TextReads(n: Node, lib: Lib)
    requires lib.Valid() && Good(n)
    ensures Reader(Written(n), lib).ParseValue(0) == Ok(NodeValue(n, lib, false), |Written(n)|)
  {
    hide Reader.ParseValue, Written, Good, NodeValue;
    assert At(Written(n), 0, Written(n));
    NodeReads(Reader(Written(n), lib), n, 0);
  }

  lemma NulNeedsString(n: Node)
    requires Good(n) && 0 in Written(n)
    ensures !n.NumberNode?
  {
  }

  /** What comes back: nothing when a string or key has a zero character, and otherwise the
      image of the tree. */
  lemma ConvertedReads(v: Value, lib: Lib, how: Reading)
    requires lib.Valid() && Serialize(v, lib).Some?
    ensures var read := Reader(SerializeStr(v, lib, how).value, lib).ParseValue(0);
            if Every(v, WITHOUT_NUL) then read == Ok(Image(v, lib, how), |SerializeStr(v, lib, how).value|)
            else read.Fail?
  {
    hide Serialize, Written, Good, NodeValue, NodeOf, ConvertNode, Convert, Reader.ParseValue, Every;
    var n, lone := NodeOf(v, lib), lib.lone;
    SerializedIsWritten(v, lib);
    ConvertWritten(n, lone, how);
    NulIff(v, lib);
    ConvertKeepsNul(Written(n), lone, how);
    var node, u := ConvertNode(n, lone, how), SerializeStr(v, lib, how).value;
    assert u == Until(Written(node), 0);
    hide SerializeStr;
    if 0 in Written(node) {
      NulNeedsString(node);
      CutFails(u, node, lib);
    } else {
      TextReads(node, lib);
    }
  }

  /** The round trip on all inputs: the text of a tree that serializes parses back to the same
      tree if and only if no string or key in it has a zero character, all survive the
      conversion, and no double prints without a point. */
  lemma RoundTrip(v: Value, lib: Lib, how: Reading)
    requires lib.Valid() && Serialize(v, lib).Some?
    ensures var read := Reader(SerializeStr(v, lib, how).value, lib).ParseValue(0);
            && (Carries(v, how) ==> read.Ok? && read.value == Reread(v, lib))
            && (read.Ok? && read.value == v <==> Carries(v, how) && PointedDoubles(v, lib))
  {
    hide Serialize, SerializeStr, Reread, Reader.ParseValue, Every, PointedDoubles, Image;
    ConvertedReads(v, lib, how);
    ImageIff(v, lib, how);
    RereadIsIdentity(v, lib);
  }

  const TEXT_1E22: Text := ['1' as int, 'e' as int, '+' as int, '2' as int, '2' as int]

  /** 1e22 prints as 1e+22 and comes back as that string. */
  lemma LargeDoubleIsLost(d: Double, lib: Lib, how: Reading)
    requires lib.Valid() && lib.number(d) == Some(TEXT_1E22)
    ensures SerializeStr(Dbl(d), lib, how) == Some(TEXT_1E22)
    ensures Reader(TEXT_1E22, lib).ParseValue(0) == Ok(Str(TEXT_1E22), 5)
  {
    hide Reader.ParseValue, Convert, Image;
    PrintedLargeDouble(d, lib);
    ConvertAscii(TEXT_1E22, lib.lone, how);
    ConvertedReads(Dbl(d), lib, how);
    ImageIff(Dbl(d), lib, how);
  }

  lemma PrintedLargeDouble(d: Double, lib: Lib)
    requires lib.Valid() && lib.number(d) == Some(TEXT_1E22)
    ensures Serialize(Dbl(d), lib) == Some(TEXT_1E22) && Reread(Dbl(d), lib) == Str(TEXT_1E22)
    ensures Ascii(TEXT_1E22) && 0 !in TEXT_1E22 && |TEXT_1E22| == 5
  {
    assert TEXT_1E22[1] == 'e' as int;
  }

  /** A string with a zero character makes a text that does not parse. */
  lemma NulFails(s: Text, lib: Lib, how: Reading)
    requires lib.Valid() && 0 in s
    ensures Reader(SerializeStr(Str(s), lib, how).value, lib).ParseValue(0).Fail?
  {
    hide Reader.ParseValue, SerializeStr, Image;
    ConvertedReads(Str(s), lib, how);
  }
}
