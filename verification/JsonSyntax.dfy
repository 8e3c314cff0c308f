/** The texts that sections 2 to 7 of RFC 8259 allow for a tree, and how they are parsed: any
    blanks between the tokens, any form of escape, any number. */
module JsonSyntax {
  import opened Common
  import opened JsonText
  import opened JsonSerializer
  import opened JsonParser

  // ---- concrete syntax ----

  predicate Blank(t: Text) {
    forall i :: 0 <= i < |t| ==> IsSpace(t[i])
  }

  /** A character of a string: as it is, by a short escape, or by its code. */
  datatype Piece = Plain(c: QChar) | Short(c: QChar) | Hex(digits: Text)

  predicate GoodPiece(p: Piece) {
    match p
    case Plain(c) => c != QUOTE && c != BACKSLASH
    case Short(c) => Unescape(c).Some?
    case Hex(digits) => FourHexDigits(digits)
  }

  predicate GoodPieces(ps: seq<Piece>) {
    forall i :: 0 <= i < |ps| ==> GoodPiece(ps[i])
  }

  function PieceText(p: Piece): Text {
    match p
    case Plain(c) => [c]
    case Short(c) => [BACKSLASH, c]
    case Hex(digits) => [BACKSLASH, 'u' as int] + digits
  }

  function PieceChar(p: Piece): QChar
    requires GoodPiece(p)
  {
    match p
    case Plain(c) => c
    case Short(c) => Unescape(c).value
    case Hex(digits) => HexValue(digits)
  }

  function PiecesText(ps: seq<Piece>): Text {
    if ps == [] then [] else PieceText(ps[0]) + PiecesText(ps[1..])
  }

  function PiecesValue(ps: seq<Piece>): Text
    requires GoodPieces(ps)
  {
    if ps == [] then [] else [PieceChar(ps[0])] + PiecesValue(ps[1..])
  }

  function Quoted(ps: seq<Piece>): Text {
    [QUOTE] + (PiecesText(ps) + [QUOTE])
  }

  datatype Node =
    | NullNode
    | BoolNode(b: bool)
    | NumberNode(lexeme: Text)
    | StringNode(pieces: seq<Piece>)
    | ArrayNode(items: Items)
    | ObjectNode(members: Members)

  /** The items from some point on; `comma` holds the blanks before the comma, which the first
      item does not have, `blank` those before the item or the closing bracket. */
  datatype Items =
    | ItemsEnd(blank: Text)
    | Item(comma: Text, blank: Text, node: Node, rest: Items)

  datatype Members =
    | MembersEnd(blank: Text)
    | Member(comma: Text, blank: Text, name: seq<Piece>, colon: Text, gap: Text, node: Node, rest: Members)

  predicate Good(n: Node) {
    match n
    case NumberNode(lexeme) => IsDoubleText(lexeme)
    case StringNode(pieces) => GoodPieces(pieces)
    case ArrayNode(items) => GoodItems(items)
    case ObjectNode(members) => GoodMembers(members)
    case _ => true
  }

  predicate GoodItems(it: Items) {
    match it
    case ItemsEnd(blank) => Blank(blank)
    case Item(comma, blank, node, rest) => Blank(comma) && Blank(blank) && Good(node) && GoodItems(rest)
  }

  predicate GoodMembers(m: Members) {
    match m
    case MembersEnd(blank) => Blank(blank)
    case Member(comma, blank, name, colon, gap, node, rest) =>
      && Blank(comma) && Blank(blank) && GoodPieces(name) && Blank(colon) && Blank(gap)
      && Good(node) && GoodMembers(rest)
  }

  function Written(n: Node): Text {
    match n
    case NullNode => NULL_TEXT
    case BoolNode(b) => if b then TRUE_TEXT else FALSE_TEXT
    case NumberNode(lexeme) => lexeme
    case StringNode(pieces) => Quoted(pieces)
    case ArrayNode(items) => [LBRACKET] + WrittenItems(items, true)
    case ObjectNode(members) => [LBRACE] + WrittenMembers(members, true)
  }

  function Separator(comma: Text, first: bool): Text {
    if first then [] else comma + [COMMA]
  }

  function WrittenItems(it: Items, first: bool): Text {
    match it
    case ItemsEnd(blank) => blank + [RBRACKET]
    case Item(comma, blank, node, rest) =>
      Separator(comma, first) + (blank + (Written(node) + WrittenItems(rest, false)))
  }

  function Named(name: Text, colon: Text, gap: Text, rest: Text): Text {
    name + (colon + ([COLON] + (gap + rest)))
  }

  function WrittenMembers(m: Members, first: bool): Text {
    match m
    case MembersEnd(blank) => blank + [RBRACE]
    case Member(comma, blank, name, colon, gap, node, rest) =>
      Separator(comma, first) +
      (blank + Named(Quoted(name), colon, gap, Written(node) + WrittenMembers(rest, false)))
  }

  // ---- what a text means, and what it is read as ----

  /** A number without a point or an exponent, within 64 bits, is an integer; any other is a
      double. */
  function NumberMeaning(t: Text, lib: Lib): Value {
    match ToInteger(t, -0x8000_0000_0000_0000, 0xFFFF_FFFF_FFFF_FFFF)
    case Some(n) => Num(n)
    case None => Dbl(lib.toDouble(t))
  }

  function NumberValue(t: Text, lib: Lib, meant: bool): Value {
    if meant then NumberMeaning(t, lib) else ReadNumber(t, lib)
  }

  /** The tree of a text, with its numbers as they are meant or as they are read. A later
      member overrides an earlier one of the same name. */
  function NodeValue(n: Node, lib: Lib, meant: bool): Value
    requires Good(n)
  {
    match n
    case NullNode => Null
    case BoolNode(b) => Bool(b)
    case NumberNode(lexeme) => NumberValue(lexeme, lib, meant)
    case StringNode(pieces) => Str(PiecesValue(pieces))
    case ArrayNode(items) => List(ItemsValue(items, lib, meant))
    case ObjectNode(members) => Map(MembersValue(members, lib, meant))
  }

  function ItemsValue(it: Items, lib: Lib, meant: bool): seq<Value>
    requires GoodItems(it)
  {
    if it.ItemsEnd? then [] else [NodeValue(it.node, lib, meant)] + ItemsValue(it.rest, lib, meant)
  }

  function MembersValue(m: Members, lib: Lib, meant: bool): map<Text, Value>
    requires GoodMembers(m)
  {
    if m.MembersEnd? then map[]
    else map[PiecesValue(m.name) := NodeValue(m.node, lib, meant)] + MembersValue(m.rest, lib, meant)
  }

  // ---- strings ----

  lemma {:induction false} PiecesRead(r: Reader, i: nat, ps: seq<Piece>, read: Text)
    requires r.lib.Valid() && GoodPieces(ps) && At(r.json, i, PiecesText(ps) + [QUOTE])
    ensures r.StringBody(i, read) == Ok(read + PiecesValue(ps), i + |PiecesText(ps)| + 1)
    decreases |ps|
  {
    hide PieceText, PieceChar, GoodPiece;
    if ps == [] {
      assert PiecesText(ps) + [QUOTE] == [QUOTE];
      AtIndex(r.json, i, [QUOTE], 0);
      assert read + [] == read;
    } else {
      var t := PieceText(ps[0]);
      ThreeParts(t, PiecesText(ps[1..]), [QUOTE]);
      AtAppend(r.json, i, t, PiecesText(ps[1..]) + [QUOTE]);
      PieceRead(r, i, ps[0], read);
      PiecesRead(r, i + |t|, ps[1..], read + [PieceChar(ps[0])]);
      ThreeParts(read, [PieceChar(ps[0])], PiecesValue(ps[1..]));
    }
  }

  lemma PieceRead(r: Reader, i: nat, p: Piece, read: Text)
    requires r.lib.Valid() && GoodPiece(p) && At(r.json, i, PieceText(p))
    ensures r.StringBody(i, read) == r.StringBody(i + |PieceText(p)|, read + [PieceChar(p)])
  {
    var t := PieceText(p);
    AtIndex(r.json, i, t, 0);
    if |t| > 1 {
      AtIndex(r.json, i, t, 1);
    }
    if p.Hex? {
      AtAppend(r.json, i, [BACKSLASH, 'u' as int], p.digits);
    }
  }

  lemma StringReads(r: Reader, i: nat, ps: seq<Piece>)
    requires r.lib.Valid() && GoodPieces(ps) && At(r.json, i, Quoted(ps))
    ensures i < |r.json| && r.json[i] == QUOTE && r.SkipSpace(i) == i
    ensures r.NextToken(i).0 == StringToken
    ensures r.ParseString(i) == Ok(PiecesValue(ps), i + |Quoted(ps)|)
  {
    hide PiecesText, PiecesValue;
    AtAppend(r.json, i, [QUOTE], PiecesText(ps) + [QUOTE]);
    AtIndex(r.json, i, [QUOTE], 0);
    PiecesRead(r, i + 1, ps, []);
    assert [] + PiecesValue(ps) == PiecesValue(ps);
  }

  // ---- numbers and keywords ----

  /** The text at index i cannot extend a number lexeme that ends there. */
  predicate Delimited(json: Text, i: nat) {
    i >= |json| || !IsNumberChar(json[i])
  }

  lemma {:induction false} NumberEndAt(r: Reader, i: nat, e: nat)
    requires i <= e <= |r.json| && Delimited(r.json, e)
    requires forall k :: i <= k < e ==> IsNumberChar(r.json[k])
    ensures r.NumberEnd(i) == e
    decreases e - i
  {
    if i < e {
      NumberEndAt(r, i + 1, e);
    }
  }

  /** A delimited lexeme that starts like a number is read whole. */
  lemma LexemeReads(r: Reader, i: nat, t: Text)
    requires At(r.json, i, t) && IsDoubleText(t) && Delimited(r.json, i + |t|)
    ensures r.ParseValue(i) == Ok(ReadNumber(t, r.lib), i + |t|)
  {
    AtIndex(r.json, i, t, 0);
    forall k | i <= k < i + |t| ensures IsNumberChar(r.json[k]) {
      AtIndex(r.json, i, t, k - i);
    }
    NumberEndAt(r, i, i + |t|);
  }

  lemma KeywordReads(r: Reader, i: nat)
    ensures At(r.json, i, NULL_TEXT) ==> r.ParseValue(i) == Ok(Null, i + 4)
    ensures At(r.json, i, TRUE_TEXT) ==> r.ParseValue(i) == Ok(Bool(true), i + 4)
    ensures At(r.json, i, FALSE_TEXT) ==> r.ParseValue(i) == Ok(Bool(false), i + 5)
  {
    hide Reader.ParseMembers, Reader.ParseItems, Reader.ParseString, Reader.ParseNumber;
    if At(r.json, i, NULL_TEXT) {
      AtIndex(r.json, i, NULL_TEXT, 0);
    } else if At(r.json, i, TRUE_TEXT) {
      AtIndex(r.json, i, TRUE_TEXT, 0);
    } else if At(r.json, i, FALSE_TEXT) {
      AtIndex(r.json, i, FALSE_TEXT, 0);
    }
  }

  // ---- blanks ----

  lemma BlankSkipped(r: Reader, i: nat)
    requires i < |r.json| && IsSpace(r.json[i])
    ensures r.SkipSpace(i) == r.SkipSpace(i + 1)
    ensures r.NextToken(i) == r.NextToken(i + 1)
    ensures r.ParseValue(i) == r.ParseValue(i + 1)
  {
    hide Reader.StringBody, Reader.ParseItems, Reader.ParseMembers;
    assert r.SkipSpace(i) == r.SkipSpace(i + 1);
  }

  lemma BlankBeforeItems(r: Reader, i: nat, items: seq<Value>)
    requires i < |r.json| && IsSpace(r.json[i])
    ensures r.ParseItems(i, items) == r.ParseItems(i + 1, items)
  {
    hide Reader.NextToken, Reader.SkipSpace, Reader.ParseValue;
    BlankSkipped(r, i);
  }

  lemma BlankBeforeMembers(r: Reader, i: nat, entries: map<Text, Value>)
    requires i < |r.json| && IsSpace(r.json[i])
    ensures r.ParseMembers(i, entries) == r.ParseMembers(i + 1, entries)
  {
    hide Reader.ParseValue, Reader.ParseItems, Reader.StringBody, Reader.NextToken, Reader.SkipSpace;
    BlankSkipped(r, i);
  }

  lemma {:induction false} BlanksSkipped(r: Reader, i: nat, b: Text)
    requires Blank(b) && At(r.json, i, b)
    ensures r.SkipSpace(i) == r.SkipSpace(i + |b|)
    ensures r.NextToken(i) == r.NextToken(i + |b|)
    ensures r.ParseValue(i) == r.ParseValue(i + |b|)
    decreases |b|
  {
    hide Reader.ParseValue, Reader.NextToken, Reader.SkipSpace;
    if b != [] {
      FirstOf(r.json, i, b);
      BlankSkipped(r, i);
      BlanksSkipped(r, i + 1, b[1..]);
    }
  }

  lemma FirstOf(json: Text, i: nat, b: Text)
    requires b != [] && At(json, i, b)
    ensures i < |json| && json[i] == b[0] && At(json, i + 1, b[1..])
  {
    assert b == [b[0]] + b[1..];
    AtAppend(json, i, [b[0]], b[1..]);
  }

  lemma {:induction false} BlanksBeforeItems(r: Reader, i: nat, b: Text, items: seq<Value>)
    requires Blank(b) && At(r.json, i, b)
    ensures r.ParseItems(i, items) == r.ParseItems(i + |b|, items)
    decreases |b|
  {
    hide Reader.ParseItems;
    if b != [] {
      FirstOf(r.json, i, b);
      BlankBeforeItems(r, i, items);
      BlanksBeforeItems(r, i + 1, b[1..], items);
    }
  }

  lemma {:induction false} BlanksBeforeMembers(r: Reader, i: nat, b: Text, entries: map<Text, Value>)
    requires Blank(b) && At(r.json, i, b)
    ensures r.ParseMembers(i, entries) == r.ParseMembers(i + |b|, entries)
    decreases |b|
  {
    hide Reader.ParseMembers;
    if b != [] {
      FirstOf(r.json, i, b);
      BlankBeforeMembers(r, i, entries);
      BlanksBeforeMembers(r, i + 1, b[1..], entries);
    }
  }

  // ---- steps of the two loops ----

  lemma ItemsStep(r: Reader, i: nat, read: seq<Value>)
    requires i <= |r.json| && r.ParseValue(i).Ok?
    ensures r.ParseItems(i, read) == r.ParseItems(r.ParseValue(i).next, read + [r.ParseValue(i).value])
  {
  }

  lemma ItemsMark(r: Reader, i: nat, read: seq<Value>)
    requires i < |r.json|
    ensures r.json[i] == COMMA ==> r.ParseItems(i, read) == r.ParseItems(i + 1, read)
    ensures r.json[i] == RBRACKET ==> r.ParseItems(i, read) == Ok(List(read), i + 1)
    ensures r.json[i] == LBRACKET ==> r.ParseValue(i) == r.ParseItems(i + 1, [])
  {
    hide Reader.StringBody, Reader.ParseMembers;
  }

  lemma MembersStep(r: Reader, i: nat, read: map<Text, Value>, j: nat)
    requires i < |r.json| && r.NextToken(i).0 == StringToken
    requires r.ParseString(i).Ok? && r.NextToken(r.ParseString(i).next) == (Colon, j)
    requires j <= |r.json| && r.ParseValue(j).Ok?
    ensures r.ParseMembers(i, read) ==
            r.ParseMembers(r.ParseValue(j).next, read[r.ParseString(i).value := r.ParseValue(j).value])
  {
  }

  lemma MembersMark(r: Reader, i: nat, read: map<Text, Value>)
    requires i < |r.json|
    ensures r.json[i] == COMMA ==> r.ParseMembers(i, read) == r.ParseMembers(i + 1, read)
    ensures r.json[i] == RBRACE ==> r.ParseMembers(i, read) == Ok(Map(read), i + 1)
    ensures r.json[i] == LBRACE ==> r.ParseValue(i) == r.ParseMembers(i + 1, map[])
    ensures r.json[i] == COLON ==> r.NextToken(i) == (Colon, i + 1)
  {
    hide Reader.StringBody, Reader.ParseItems;
  }

  // What comes after an item ends a number.
  lemma RestDelimits(json: Text, i: nat, b: Text, mark: QChar, rest: Text)
    requires Blank(b) && !IsNumberChar(mark) && At(json, i, b + ([mark] + rest))
    ensures Delimited(json, i)
  {
    AtIndex(json, i, b + ([mark] + rest), 0);
  }

  lemma ItemsDelimit(json: Text, i: nat, it: Items)
    requires GoodItems(it) && At(json, i, WrittenItems(it, false))
    ensures Delimited(json, i)
  {
    match it
    case ItemsEnd(blank) =>
      assert [RBRACKET] + [] == [RBRACKET];
      RestDelimits(json, i, blank, RBRACKET, []);
    case Item(comma, blank, node, rest) =>
      var t := blank + (Written(node) + WrittenItems(rest, false));
      ThreeParts(comma, [COMMA], t);
      RestDelimits(json, i, comma, COMMA, t);
  }

  lemma MembersDelimit(json: Text, i: nat, m: Members)
    requires GoodMembers(m) && At(json, i, WrittenMembers(m, false))
    ensures Delimited(json, i)
  {
    match m
    case MembersEnd(blank) =>
      assert [RBRACE] + [] == [RBRACE];
      RestDelimits(json, i, blank, RBRACE, []);
    case Member(comma, blank, name, colon, gap, node, rest) =>
      var t := blank + Named(Quoted(name), colon, gap, Written(node) + WrittenMembers(rest, false));
      ThreeParts(comma, [COMMA], t);
      RestDelimits(json, i, comma, COMMA, t);
  }

  // ---- every text is read ----

  /** Wherever the text of a tree stands, it is read as that tree, and the index is just
      after it. Only a number must be told apart from what follows. */
  lemma {:induction false} NodeReads(r: Reader, n: Node, i: nat)
    requires r.lib.Valid() && Good(n) && At(r.json, i, Written(n))
    requires n.NumberNode? ==> Delimited(r.json, i + |Written(n)|)
    ensures r.ParseValue(i) == Ok(NodeValue(n, r.lib, false), i + |Written(n)|)
    decreases n
  {
    hide Reader.ParseValue, Reader.ParseItems, Reader.ParseMembers, WrittenItems, WrittenMembers, ReadNumber;
    match n
    case NullNode => KeywordReads(r, i);
    case BoolNode(_) => KeywordReads(r, i);
    case NumberNode(lexeme) => LexemeReads(r, i, lexeme);
    case StringNode(pieces) => QuotedReads(r, i, pieces);
    case ArrayNode(items) =>
      AtAppend(r.json, i, [LBRACKET], WrittenItems(items, true));
      AtIndex(r.json, i, [LBRACKET], 0);
      ItemsMark(r, i, []);
      ItemsRead(r, items, true, i + 1, []);
      assert [] + ItemsValue(items, r.lib, false) == ItemsValue(items, r.lib, false);
    case ObjectNode(members) =>
      AtAppend(r.json, i, [LBRACE], WrittenMembers(members, true));
      AtIndex(r.json, i, [LBRACE], 0);
      MembersMark(r, i, map[]);
      MembersRead(r, members, true, i + 1, map[]);
      assert map[] + MembersValue(members, r.lib, false) == MembersValue(members, r.lib, false);
  }

  lemma QuotedReads(r: Reader, i: nat, ps: seq<Piece>)
    requires r.lib.Valid() && GoodPieces(ps) && At(r.json, i, Quoted(ps))
    ensures r.ParseValue(i) == Ok(Str(PiecesValue(ps)), i + |Quoted(ps)|)
  {
    hide Reader.StringBody, Reader.ParseItems, Reader.ParseMembers, Reader.ParseString, Reader.NextToken, Quoted;
    StringReads(r, i, ps);
  }

  // Past the separator before an item or a member.
  lemma SeparatorRead(r: Reader, i: nat, comma: Text, first: bool, items: seq<Value>, entries: map<Text, Value>)
    requires Blank(comma) && At(r.json, i, Separator(comma, first))
    ensures r.ParseItems(i, items) == r.ParseItems(i + |Separator(comma, first)|, items)
    ensures r.ParseMembers(i, entries) == r.ParseMembers(i + |Separator(comma, first)|, entries)
  {
    hide Reader.ParseItems, Reader.ParseMembers;
    if !first {
      AtAppend(r.json, i, comma, [COMMA]);
      AtIndex(r.json, i + |comma|, [COMMA], 0);
      BlanksBeforeItems(r, i, comma, items);
      BlanksBeforeMembers(r, i, comma, entries);
      ItemsMark(r, i + |comma|, items);
      MembersMark(r, i + |comma|, entries);
    }
  }

  // Where the parts of an item stand.
  lemma ItemParts(json: Text, i: nat, comma: Text, blank: Text, text: Text, more: Text, first: bool)
    requires At(json, i, Separator(comma, first) + (blank + (text + more)))
    ensures var s := i + |Separator(comma, first)|;
            var j := s + |blank|;
            && At(json, i, Separator(comma, first)) && At(json, s, blank) && At(json, j, text) &&
              At(json, j + |text|, more)
            && j + |text| + |more| <= |json|
  {
    hide At, Separator;
    var sep := Separator(comma, first);
    AtAppend(json, i, sep, blank + (text + more));
    AtAppend(json, i + |sep|, blank, text + more);
    AtAppend(json, i + |sep| + |blank|, text, more);
  }

  // The end of an array or an object.
  lemma EndParts(json: Text, i: nat, blank: Text, close: QChar)
    requires At(json, i, blank + [close])
    ensures At(json, i, blank) && i + |blank| < |json| && json[i + |blank|] == close
  {
    AtAppend(json, i, blank, [close]);
    AtIndex(json, i + |blank|, [close], 0);
  }

  lemma {:induction false} ItemsRead(r: Reader, it: Items, first: bool, i: nat, read: seq<Value>)
    requires r.lib.Valid() && GoodItems(it) && At(r.json, i, WrittenItems(it, first))
    ensures r.ParseItems(i, read) ==
            Ok(List(read + ItemsValue(it, r.lib, false)), i + |WrittenItems(it, first)|)
    decreases it
  {
    hide Reader.ParseItems, Reader.ParseValue, NodeValue, Good, Written, Separator, At, Delimited, Blank;
    match it
    case ItemsEnd(blank) =>
      EndParts(r.json, i, blank, RBRACKET);
      BlanksBeforeItems(r, i, blank, read);
      ItemsMark(r, i + |blank|, read);
      assert read + [] == read;
    case Item(comma, blank, node, rest) =>
      var text, more := Written(node), WrittenItems(rest, false);
      ItemParts(r.json, i, comma, blank, text, more, first);
      var j := i + |Separator(comma, first)| + |blank|;
      ItemsDelimit(r.json, j + |text|, rest);
      NodeReads(r, node, j);
      var v := NodeValue(node, r.lib, false);
      ItemTurn(r, i, comma, blank, text + more, first, v, j + |text|, read);
      ItemsRead(r, rest, false, j + |text|, read + [v]);
      ThreeParts(read, [v], ItemsValue(rest, r.lib, false));
  }

  // One turn of the array loop, with the value read.
  lemma ItemTurn(
    r: Reader, i: nat, comma: Text, blank: Text, rest: Text, first: bool, v: Value, next: nat,
    read: seq<Value>)
    requires Blank(comma) && Blank(blank) && At(r.json, i, Separator(comma, first) + (blank + rest))
    requires var j := i + |Separator(comma, first)| + |blank|; j <= |r.json| && r.ParseValue(j) == Ok(v, next)
    ensures r.ParseItems(i, read) == r.ParseItems(next, read + [v])
  {
    hide Reader.ParseItems, Reader.ParseValue, Reader.ParseMembers, Separator, At, Blank;
    ItemStart(r, i, comma, blank, rest, first, read);
    ItemsStep(r, i + |Separator(comma, first)| + |blank|, read);
  }

  // Past the separator and the blanks of an item.
  lemma ItemStart(r: Reader, i: nat, comma: Text, blank: Text, rest: Text, first: bool, read: seq<Value>)
    requires Blank(comma) && Blank(blank) && At(r.json, i, Separator(comma, first) + (blank + rest))
    ensures var j := i + |Separator(comma, first)| + |blank|;
            j <= |r.json| && r.ParseItems(i, read) == r.ParseItems(j, read)
  {
    hide Reader.ParseMembers, Reader.ParseItems, Separator, At, Blank;
    var sep := Separator(comma, first);
    AtAppend(r.json, i, sep, blank + rest);
    AtAppend(r.json, i + |sep|, blank, rest);
    SeparatorRead(r, i, comma, first, read, map[]);
    BlanksBeforeItems(r, i + |sep|, blank, read);
  }

  // Where the parts of a name and its colon stand.
  lemma NameParts(json: Text, i: nat, name: Text, colon: Text, gap: Text, rest: Text)
    requires At(json, i, Named(name, colon, gap, rest))
    ensures |Named(name, colon, gap, rest)| == |name| + |colon| + 1 + |gap| + |rest|
    ensures var e := i + |name|;
            var c := e + |colon|;
            && At(json, i, name) && At(json, e, colon) && c < |json| && json[c] == COLON
            && At(json, c + 1, gap) && At(json, c + 1 + |gap|, rest) && c + 1 + |gap| + |rest| <= |json|
  {
    AtAppend(json, i, name, colon + ([COLON] + (gap + rest)));
    AtAppend(json, i + |name|, colon, [COLON] + (gap + rest));
    AtAppend(json, i + |name| + |colon|, [COLON], gap + rest);
    AtAppend(json, i + |name| + |colon| + 1, gap, rest);
    AtIndex(json, i + |name| + |colon|, [COLON], 0);
    hide At;
  }

  // Past a name and its colon: the index of the value.
  lemma NameRead(r: Reader, i: nat, name: seq<Piece>, colon: Text, gap: Text, rest: Text)
    requires r.lib.Valid() && GoodPieces(name) && Blank(colon) && Blank(gap)
    requires At(r.json, i, Named(Quoted(name), colon, gap, rest))
    ensures i < |r.json| && r.NextToken(i).0 == StringToken
    ensures var e := i + |Quoted(name)|;
            var c := e + |colon|;
            && c + 1 + |gap| <= |r.json| && r.ParseString(i) == Ok(PiecesValue(name), e)
            && r.NextToken(e) == (Colon, c + 1)
            && r.ParseValue(c + 1) == r.ParseValue(c + 1 + |gap|)
  {
    hide Reader.ParseString, Reader.ParseValue, Reader.NextToken, Reader.SkipSpace, Quoted, At, Blank;
    var e := i + |Quoted(name)|;
    NameParts(r.json, i, Quoted(name), colon, gap, rest);
    StringReads(r, i, name);
    BlanksSkipped(r, e, colon);
    MembersMark(r, e + |colon|, map[]);
    BlanksSkipped(r, e + |colon| + 1, gap);
  }

  // Past the separator and the blanks of a member.
  lemma MemberStart(r: Reader, i: nat, comma: Text, blank: Text, tail: Text, first: bool, read: map<Text, Value>)
    requires Blank(comma) && Blank(blank) && At(r.json, i, Separator(comma, first) + (blank + tail))
    ensures var j := i + |Separator(comma, first)| + |blank|;
            j <= |r.json| && At(r.json, j, tail) && r.ParseMembers(i, read) == r.ParseMembers(j, read)
  {
    hide Reader.ParseMembers, Reader.ParseItems, Separator, At, Blank;
    var sep := Separator(comma, first);
    AtAppend(r.json, i, sep, blank + tail);
    AtAppend(r.json, i + |sep|, blank, tail);
    SeparatorRead(r, i, comma, first, [], read);
    BlanksBeforeMembers(r, i + |sep|, blank, read);
  }

  lemma {:induction false} MembersRead(r: Reader, m: Members, first: bool, i: nat, read: map<Text, Value>)
    requires r.lib.Valid() && GoodMembers(m) && At(r.json, i, WrittenMembers(m, first))
    ensures r.ParseMembers(i, read) ==
            Ok(Map(read + MembersValue(m, r.lib, false)), i + |WrittenMembers(m, first)|)
    decreases m, 1
  {
    hide Reader.ParseMembers, NodeValue, Good, Written, Separator, Quoted, PiecesValue, At, Blank;
    match m
    case MembersEnd(blank) =>
      EndParts(r.json, i, blank, RBRACE);
      BlanksBeforeMembers(r, i, blank, read);
      MembersMark(r, i + |blank|, read);
      assert read + map[] == read;
    case Member(comma, blank, name, colon, gap, node, rest) =>
      MemberRead(r, m, first, i, read);
      var j := i + |WrittenMembers(m, first)| - |WrittenMembers(rest, false)|;
      var v := NodeValue(node, r.lib, false);
      MembersRead(r, rest, false, j, read[PiecesValue(name) := v]);
      OneMore(read, PiecesValue(name), v, MembersValue(rest, r.lib, false));
  }

  // Where the value of a member stands.
  function ValueAt(m: Members, first: bool, i: nat): (v: nat)
    requires m.Member?
    ensures v >= i
  {
    i + |Separator(m.comma, first)| + |m.blank| + |Quoted(m.name)| + |m.colon| + 1 + |m.gap|
  }

  lemma MemberParts(json: Text, i: nat, m: Members, first: bool)
    requires m.Member? && At(json, i, WrittenMembers(m, first))
    ensures var text, more := Written(m.node), WrittenMembers(m.rest, false);
            var v := ValueAt(m, first, i);
            && At(json, v, text) && At(json, v + |text|, more) && v + |text| + |more| <= |json|
            && i + |WrittenMembers(m, first)| == v + |text| + |more|
  {
    hide Written, Separator, Quoted, At, Named;
    var text, more := Written(m.node), WrittenMembers(m.rest, false);
    var tail := Named(Quoted(m.name), m.colon, m.gap, text + more);
    assert WrittenMembers(m, first) == Separator(m.comma, first) + (m.blank + tail);
    hide WrittenMembers;
    AtAppend(json, i, Separator(m.comma, first), m.blank + tail);
    AtAppend(json, i + |Separator(m.comma, first)|, m.blank, tail);
    NameParts(json, i + |Separator(m.comma, first)| + |m.blank|, Quoted(m.name), m.colon, m.gap, text + more);
    AtAppend(json, ValueAt(m, first, i), text, more);
  }

  // One turn of the object loop, with the value read.
  lemma MemberTurn(r: Reader, i: nat, m: Members, first: bool, v: Value, next: nat, read: map<Text, Value>)
    requires r.lib.Valid() && GoodMembers(m) && m.Member? && At(r.json, i, WrittenMembers(m, first))
    requires ValueAt(m, first, i) <= |r.json| && r.ParseValue(ValueAt(m, first, i)) == Ok(v, next)
    ensures r.ParseMembers(i, read) == r.ParseMembers(next, read[PiecesValue(m.name) := v])
  {
    hide Reader.ParseMembers, Reader.ParseValue, Written, Separator, Quoted, PiecesValue, At, Blank, Named;
    var tail := Named(Quoted(m.name), m.colon, m.gap, Written(m.node) + WrittenMembers(m.rest, false));
    MemberStart(r, i, m.comma, m.blank, tail, first, read);
    var j := i + |Separator(m.comma, first)| + |m.blank|;
    NameTurn(r, j, m.name, m.colon, m.gap, Written(m.node) + WrittenMembers(m.rest, false), v, next, read);
  }

  lemma NameTurn(
    r: Reader, j: nat, name: seq<Piece>, colon: Text, gap: Text, rest: Text, v: Value, next: nat,
    read: map<Text, Value>)
    requires r.lib.Valid() && GoodPieces(name) && Blank(colon) && Blank(gap)
    requires At(r.json, j, Named(Quoted(name), colon, gap, rest))
    requires var c := j + |Quoted(name)| + |colon| + 1 + |gap|; c <= |r.json| && r.ParseValue(c) == Ok(v, next)
    ensures r.ParseMembers(j, read) == r.ParseMembers(next, read[PiecesValue(name) := v])
  {
    hide Reader.ParseMembers, Reader.ParseValue, Reader.ParseString, Reader.NextToken;
    hide Quoted, PiecesValue, At, Blank, Named;
    NameRead(r, j, name, colon, gap, rest);
    MembersStep(r, j, read, j + |Quoted(name)| + |colon| + 1);
  }

  lemma {:induction false} MemberRead(r: Reader, m: Members, first: bool, i: nat, read: map<Text, Value>)
    requires r.lib.Valid() && GoodMembers(m) && m.Member? && At(r.json, i, WrittenMembers(m, first))
    ensures |WrittenMembers(m, first)| >= |WrittenMembers(m.rest, false)|
    ensures var j := i + |WrittenMembers(m, first)| - |WrittenMembers(m.rest, false)|;
            && At(r.json, j, WrittenMembers(m.rest, false)) && j <= |r.json|
            && r.ParseMembers(i, read) ==
               r.ParseMembers(j, read[PiecesValue(m.name) := NodeValue(m.node, r.lib, false)])
    decreases m, 0
  {
    hide Reader.ParseMembers, Reader.ParseValue;
    hide NodeValue, Good, Written, WrittenMembers, ValueAt, PiecesValue, At, Blank, Delimited;
    MemberParts(r.json, i, m, first);
    var v, text := ValueAt(m, first, i), Written(m.node);
    MembersDelimit(r.json, v + |text|, m.rest);
    NodeReads(r, m.node, v);
    MemberTurn(r, i, m, first, NodeValue(m.node, r.lib, false), v + |text|, read);
  }

  lemma OneMore(read: map<Text, Value>, name: Text, v: Value, rest: map<Text, Value>)
    ensures read[name := v] + rest == read + (map[name := v] + rest)
  {
  }

  // ---- which numbers are read as they are meant ----

  /** A point, or an integer within 64 bits. */
  predicate KeptNumber(t: Text) {
    DOT in t || ToInteger(t, -0x8000_0000_0000_0000, 0xFFFF_FFFF_FFFF_FFFF).Some?
  }

  lemma NumberKeptIff(t: Text, lib: Lib)
    requires IsDoubleText(t)
    ensures ReadNumber(t, lib) == NumberMeaning(t, lib) <==> KeptNumber(t)
    ensures !KeptNumber(t) ==> ReadNumber(t, lib) == Str(t)
  {
    if DOT in t {
      PointIsNoInteger(t, -0x8000_0000_0000_0000, 0xFFFF_FFFF_FFFF_FFFF);
    }
  }

  lemma PointIsNoInteger(t: Text, lo: int, hi: int)
    requires DOT in t
    ensures ToInteger(t, lo, hi).None?
  {
    var k :| 0 <= k < |t| && t[k] == DOT;
    assert !IsDigit(t[k]);
    assert k > 0 ==> t[1..][k - 1] == DOT;
  }

  /** Every number that counts is kept; one whose member is overridden does not count. */
  predicate Kept(n: Node)
    requires Good(n)
  {
    match n
    case NumberNode(lexeme) => KeptNumber(lexeme)
    case ArrayNode(items) => KeptItems(items)
    case ObjectNode(members) => KeptMembers(members)
    case _ => true
  }

  predicate KeptItems(it: Items)
    requires GoodItems(it)
  {
    it.Item? ==> Kept(it.node) && KeptItems(it.rest)
  }

  predicate KeptMembers(m: Members)
    requires GoodMembers(m)
  {
    m.Member? ==> (Kept(m.node) || PiecesValue(m.name) in Names(m.rest)) && KeptMembers(m.rest)
  }

  function Names(m: Members): set<Text>
    requires GoodMembers(m)
  {
    if m.MembersEnd? then {} else {PiecesValue(m.name)} + Names(m.rest)
  }

  lemma {:induction false} NamesAreKeys(m: Members, lib: Lib, meant: bool)
    requires GoodMembers(m)
    ensures MembersValue(m, lib, meant).Keys == Names(m)
  {
    hide NodeValue, PiecesValue;
    if m.Member? {
      NamesAreKeys(m.rest, lib, meant);
    }
  }

  lemma FirstAndRest(a: Value, b: Value, x: seq<Value>, y: seq<Value>)
    ensures [a] + x == [b] + y <==> a == b && x == y
  {
    assert ([a] + x)[1..] == x && ([b] + y)[1..] == y;
    assert ([a] + x)[0] == a && ([b] + y)[0] == b;
  }

  lemma FirstUnderRest(k: Text, a: Value, b: Value, x: map<Text, Value>, y: map<Text, Value>)
    requires x.Keys == y.Keys
    ensures map[k := a] + x == map[k := b] + y <==> (a == b || k in x) && x == y
  {
    var p, q := map[k := a] + x, map[k := b] + y;
    if p == q {
      forall j | j in x ensures x[j] == y[j] {
        assert p[j] == x[j] && q[j] == y[j];
      }
      assert x == y;
      assert k !in x ==> p[k] == a && q[k] == b;
    }
  }

  lemma {:induction false} KeptIff(n: Node, lib: Lib)
    requires Good(n)
    ensures NodeValue(n, lib, false) == NodeValue(n, lib, true) <==> Kept(n)
    decreases n
  {
    match n
    case NumberNode(lexeme) => NumberKeptIff(lexeme, lib);
    case ArrayNode(items) => KeptItemsIff(items, lib);
    case ObjectNode(members) => KeptMembersIff(members, lib);
    case _ =>
  }

  lemma {:induction false} KeptItemsIff(it: Items, lib: Lib)
    requires GoodItems(it)
    ensures ItemsValue(it, lib, false) == ItemsValue(it, lib, true) <==> KeptItems(it)
    decreases it
  {
    hide NodeValue, Kept;
    if it.Item? {
      KeptIff(it.node, lib);
      KeptItemsIff(it.rest, lib);
      FirstAndRest(NodeValue(it.node, lib, false), NodeValue(it.node, lib, true),
                   ItemsValue(it.rest, lib, false), ItemsValue(it.rest, lib, true));
    }
  }

  lemma {:induction false} KeptMembersIff(m: Members, lib: Lib)
    requires GoodMembers(m)
    ensures MembersValue(m, lib, false) == MembersValue(m, lib, true) <==> KeptMembers(m)
    decreases m
  {
    hide NodeValue, Kept, PiecesValue;
    if m.Member? {
      KeptIff(m.node, lib);
      KeptMembersIff(m.rest, lib);
      NamesAreKeys(m.rest, lib, false);
      NamesAreKeys(m.rest, lib, true);
      FirstUnderRest(PiecesValue(m.name), NodeValue(m.node, lib, false), NodeValue(m.node, lib, true),
                     MembersValue(m.rest, lib, false), MembersValue(m.rest, lib, true));
    }
  }

  /** Every text of the grammar, with any blanks around it, is accepted, and it is read as the
      tree it means if and only if no number that counts has an exponent without a point or
      is an integer beyond 64 bits. */
  lemma GrammarIsRead(before: Text, n: Node, after: Text, lib: Lib)
    requires lib.Valid() && Blank(before) && Good(n) && Blank(after)
    ensures var read := Reader(before + (Written(n) + after), lib).ParseValue(0);
            && read == Ok(NodeValue(n, lib, false), |before| + |Written(n)|)
            && (read.value == NodeValue(n, lib, true) <==> Kept(n))
  {
    hide Reader.ParseValue, Written, Good, NodeValue, Kept;
    var r := Reader(before + (Written(n) + after), lib);
    assert r.json[0..0 + |r.json|] == r.json;
    AtAppend(r.json, 0, before, Written(n) + after);
    AtAppend(r.json, |before|, Written(n), after);
    BlanksSkipped(r, 0, before);
    EndDelimits(r.json, |before| + |Written(n)|, after);
    NodeReads(r, n, |before|);
    KeptIff(n, lib);
  }

  lemma EndDelimits(json: Text, i: nat, after: Text)
    requires Blank(after) && At(json, i, after) && i + |after| == |json|
    ensures Delimited(json, i)
  {
    if after != [] {
      AtIndex(json, i, after, 0);
    }
  }

  // ---- numbers of the grammar ----

  datatype Exponent = Exponent(mark: QChar, sign: Text, digits: Text)

  /** The number of section 6 of RFC 8259; leading zeros may stand too. */
  datatype Lexeme = Lexeme(minus: bool, whole: Text, frac: Option<Text>, exp: Option<Exponent>)

  predicate GoodLexeme(l: Lexeme) {
    && AllDigits(l.whole)
    && (l.frac.Some? ==> AllDigits(l.frac.value))
    && (l.exp.Some? ==>
          && (l.exp.value.mark == 'e' as int || l.exp.value.mark == 'E' as int)
          && (l.exp.value.sign == [] || l.exp.value.sign == [PLUS] || l.exp.value.sign == [MINUS])
          && AllDigits(l.exp.value.digits))
  }

  function FractionText(frac: Option<Text>): Text {
    match frac case Some(digits) => [DOT] + digits case None => []
  }

  function ExponentText(exp: Option<Exponent>): Text {
    match exp case Some(e) => [e.mark] + e.sign + e.digits case None => []
  }

  function LexemeText(l: Lexeme): Text {
    (if l.minus then [MINUS] else []) + (l.whole + (FractionText(l.frac) + ExponentText(l.exp)))
  }

  lemma DigitsAreNumberChars(t: Text)
    requires AllDigits(t)
    ensures forall k :: 0 <= k < |t| ==> IsNumberChar(t[k]) && t[k] != DOT
  {
  }

  // The sign and the digits before a fraction or an exponent.
  lemma LexemeParts(l: Lexeme)
    requires GoodLexeme(l)
    ensures var sign, tail := if l.minus then [MINUS] else [], FractionText(l.frac) + ExponentText(l.exp);
            var t := LexemeText(l);
            && t == sign + (l.whole + tail) && t[0] != PLUS && t[0] != DOT
            && (l.minus ==> t[0] == MINUS && t[1..] == l.whole + tail)
            && (!l.minus ==> t == l.whole + tail && IsDigit(t[0]))
  {
    hide FractionText, ExponentText;
  }

  lemma WholeParts(whole: Text, tail: Text)
    requires AllDigits(whole)
    ensures DOT in whole + tail <==> DOT in tail
    ensures tail == [] ==> whole + tail == whole
    ensures tail != [] && !IsDigit(tail[0]) ==> !AllDigits(whole + tail)
    ensures (forall k :: 0 <= k < |tail| ==> IsNumberChar(tail[k])) ==>
              forall k :: 0 <= k < |whole + tail| ==> IsNumberChar((whole + tail)[k])
  {
    DigitsAreNumberChars(whole);
    if tail != [] {
      assert (whole + tail)[|whole|] == tail[0];
    }
  }

  /** Every number of the grammar is a number node, and it is read as it is meant exactly when
      it has a fraction, or neither that nor an exponent and fits 64 bits. */
  lemma LexemeKept(l: Lexeme)
    requires GoodLexeme(l)
    ensures IsDoubleText(LexemeText(l))
    ensures var n := if l.minus then -(DigitsValue(l.whole) as int) else DigitsValue(l.whole);
            KeptNumber(LexemeText(l)) <==>
            l.frac.Some? || (l.exp.None? && -0x8000_0000_0000_0000 <= n <= 0xFFFF_FFFF_FFFF_FFFF)
  {
    var t, tail := LexemeText(l), FractionText(l.frac) + ExponentText(l.exp);
    LexemeParts(l);
    TailChars(l.frac, l.exp);
    WholeParts(l.whole, tail);
    hide LexemeText, FractionText, ExponentText, DigitsValue, GoodLexeme;
    if l.minus {
      assert t == [t[0]] + t[1..];
    }
    assert DOT in t <==> DOT in l.whole + tail;
  }

  lemma TailChars(frac: Option<Text>, exp: Option<Exponent>)
    requires GoodLexeme(Lexeme(false, [ZERO], frac, exp))
    ensures var tail := FractionText(frac) + ExponentText(exp);
            && (forall k :: 0 <= k < |tail| ==> IsNumberChar(tail[k]))
            && (DOT in tail <==> frac.Some?)
            && (frac.None? && exp.None? ==> tail == [])
            && (frac.None? && exp.Some? ==> tail != [] && !IsDigit(tail[0]))
  {
    if frac.Some? {
      DigitsAreNumberChars(frac.value);
      assert FractionText(frac)[0] == DOT;
    }
    if exp.Some? {
      DigitsAreNumberChars(exp.value.digits);
    }
  }
}
