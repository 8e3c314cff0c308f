/** Exactly which texts the parser accepts, and as what: the layouts of the grammar and the ones
    it lets through besides. Commas may stand anywhere between items or be missing, an unknown
    escape names nothing, any four characters may follow \u, a name may open with any character
    that opens a token, and whatever follows the value is not looked at. */
module JsonLenient {
  import opened Common
  import opened JsonText
  import opened JsonSerializer
  import opened JsonParser
  import JsonSyntax

  // ---- characters ----

  const BLANKS: set<int> := {32, 9, 10, 13}

  const NUMBER_CHARS: set<int> :=
    {48, 49, 50, 51, 52, 53, 54, 55, 56, 57, '+' as int, '-' as int, '.' as int, 'e' as int, 'E' as int}

  /** What follows a backslash and names a character, and that character. */
  const ESCAPES: map<int, int> :=
    map[34 := 34, 92 := 92, 47 := 47, 'b' as int := 8, 'f' as int := 12, 'n' as int := 10, 'r' as int := 13,
        't' as int := 9]

  lemma SpaceIs(c: QChar)
    ensures IsSpace(c) <==> c in BLANKS
  {
  }

  lemma NumberCharIs(c: QChar)
    ensures IsNumberChar(c) <==> c in NUMBER_CHARS
  {
  }

  lemma UnescapeIs(c: QChar)
    ensures c in ESCAPES ==> 0 <= ESCAPES[c] < 0x1_0000
    ensures Unescape(c) == if c in ESCAPES then Some(ESCAPES[c]) else None
  {
  }

  predicate Blank(t: Text) {
    forall i :: 0 <= i < |t| ==> t[i] in BLANKS
  }

  predicate BlankOrCommas(t: Text) {
    forall i :: 0 <= i < |t| ==> t[i] in BLANKS || t[i] == ',' as int
  }

  // ---- strings ----

  /** A part of a string: a character, a backslash and another, or a code of four. */
  datatype Mark = Itself(c: QChar) | Escaped(c: QChar) | Code(four: Text)

  predicate GoodMark(m: Mark) {
    match m
    case Itself(c) => c != 34 && c != 92
    case Escaped(c) => c != 'u' as int
    case Code(four) => |four| == 4
  }

  predicate GoodMarks(ms: seq<Mark>) {
    forall i :: 0 <= i < |ms| ==> GoodMark(ms[i])
  }

  function MarkText(m: Mark): Text {
    match m
    case Itself(c) => [c]
    case Escaped(c) => [92, c]
    case Code(four) => [92, 'u' as int] + four
  }

  /** An unknown escape names no character. */
  function MarkValue(m: Mark, lib: Lib): Text {
    match m
    case Itself(c) => [c]
    case Escaped(c) => if c in ESCAPES then UnescapeIs(c); [ESCAPES[c]] else []
    case Code(four) => [lib.hex(four)]
  }

  function MarksText(ms: seq<Mark>): Text {
    if ms == [] then [] else MarkText(ms[0]) + MarksText(ms[1..])
  }

  function MarksValue(ms: seq<Mark>, lib: Lib): Text {
    if ms == [] then [] else MarkValue(ms[0], lib) + MarksValue(ms[1..], lib)
  }

  // ---- layouts ----

  datatype Node =
    | NullNode
    | BoolNode(b: bool)
    | NumberNode(lexeme: Text)
    | StringNode(marks: seq<Mark>)
    | ArrayNode(items: Items)
    | ObjectNode(members: Members)

  /** The items from some point on, each behind blanks and commas. */
  datatype Items =
    | ItemsEnd(sep: Text)
    | Item(sep: Text, node: Node, rest: Items)

  datatype Members =
    | MembersEnd(sep: Text)
    | Member(sep: Text, opener: QChar, name: seq<Mark>, colon: Text, gap: Text, node: Node, rest: Members)

  function TextOf(n: Node): Text {
    match n
    case NullNode => NULL_TEXT
    case BoolNode(b) => if b then TRUE_TEXT else FALSE_TEXT
    case NumberNode(lexeme) => lexeme
    case StringNode(marks) => Named(34, marks, [])
    case ArrayNode(items) => ['[' as int] + ItemsText(items)
    case ObjectNode(members) => ['{' as int] + MembersText(members)
  }

  function ItemsText(it: Items): (t: Text)
    ensures t != []
  {
    match it
    case ItemsEnd(sep) => sep + [']' as int]
    case Item(sep, node, rest) => sep + (TextOf(node) + ItemsText(rest))
  }

  // A string that opens with some character, and what follows it.
  function Named(opener: QChar, marks: seq<Mark>, rest: Text): (t: Text)
    ensures t != []
  {
    [opener] + (MarksText(marks) + ([34] + rest))
  }

  function Behind(colon: Text, gap: Text, rest: Text): Text {
    colon + ([':' as int] + (gap + rest))
  }

  function MemberText(m: Members): Text
    requires m.Member?
  {
    Named(m.opener, m.name, Behind(m.colon, m.gap, TextOf(m.node) + MembersText(m.rest)))
  }

  function MembersText(m: Members): (t: Text)
    ensures t != []
  {
    match m
    case MembersEnd(sep) => sep + ['}' as int]
    case Member(sep, opener, name, colon, gap, node, rest) =>
      sep + Named(opener, name, Behind(colon, gap, TextOf(node) + MembersText(rest)))
  }

  /** A text that begins like a token other than a comma or a closing brace. */
  predicate Opens(t: Text) {
    && t != []
    && (t[0] in {34, '{' as int, '[' as int, ']' as int, ':' as int, '-' as int} || 48 <= t[0] <= 57
        || TRUE_TEXT <= t || FALSE_TEXT <= t || NULL_TEXT <= t)
  }

  predicate GoodLexeme(t: Text) {
    && t != [] && (t[0] == '-' as int || 48 <= t[0] <= 57)
    && forall i :: 0 <= i < |t| ==> t[i] in NUMBER_CHARS
  }

  // A number must be told apart from what follows.
  predicate Apart(n: Node, after: Text) {
    n.NumberNode? && after != [] ==> after[0] !in NUMBER_CHARS
  }

  predicate Good(n: Node) {
    match n
    case NumberNode(lexeme) => GoodLexeme(lexeme)
    case StringNode(marks) => GoodMarks(marks)
    case ArrayNode(items) => GoodItems(items)
    case ObjectNode(members) => GoodMembers(members)
    case _ => true
  }

  predicate GoodItems(it: Items) {
    match it
    case ItemsEnd(sep) => BlankOrCommas(sep)
    case Item(sep, node, rest) =>
      BlankOrCommas(sep) && Good(node) && Apart(node, ItemsText(rest)) && GoodItems(rest)
  }

  predicate GoodMembers(m: Members) {
    match m
    case MembersEnd(sep) => BlankOrCommas(sep)
    case Member(sep, opener, name, colon, gap, node, rest) =>
      && BlankOrCommas(sep) && Opens(MemberText(m)) && GoodMarks(name) && Blank(colon) && Blank(gap)
      && Good(node) && Apart(node, MembersText(rest)) && GoodMembers(rest)
  }

  function ValueOf(n: Node, lib: Lib): Value {
    match n
    case NullNode => Null
    case BoolNode(b) => Bool(b)
    case NumberNode(lexeme) => ReadNumber(lexeme, lib)
    case StringNode(marks) => Str(MarksValue(marks, lib))
    case ArrayNode(items) => List(ItemsValue(items, lib))
    case ObjectNode(members) => Map(MembersValue(members, lib))
  }

  function ItemsValue(it: Items, lib: Lib): seq<Value> {
    if it.ItemsEnd? then [] else [ValueOf(it.node, lib)] + ItemsValue(it.rest, lib)
  }

  /** A later member overrides an earlier one of the same name. */
  function MembersValue(m: Members, lib: Lib): map<Text, Value> {
    if m.MembersEnd? then map[]
    else map[MarksValue(m.name, lib) := ValueOf(m.node, lib)] + MembersValue(m.rest, lib)
  }

  /** From index i to index j stands a layout of n, told apart from what follows. */
  ghost predicate Stands(json: Text, i: nat, n: Node, j: nat) {
    && Good(n) && At(json, i, TextOf(n)) && j == i + |TextOf(n)| <= |json|
    && Apart(n, json[j..])
  }

  // ---- layouts are read ----

  lemma {:induction false} MarksRead(r: Reader, i: nat, ms: seq<Mark>, rest: Text, read: Text)
    requires GoodMarks(ms) && At(r.json, i, MarksText(ms) + ([34] + rest))
    ensures r.StringBody(i, read) == Ok(read + MarksValue(ms, r.lib), i + |MarksText(ms)| + 1)
    decreases |ms|
  {
    hide MarkText, MarkValue, GoodMark, At, Reader.StringBody;
    if ms == [] {
      assert MarksText(ms) + ([34] + rest) == [34] + rest;
      QuoteEnds(r, i, rest, read);
      assert read + [] == read;
    } else {
      var t := MarkText(ms[0]);
      ThreeParts(t, MarksText(ms[1..]), [34] + rest);
      AtAppend(r.json, i, t, MarksText(ms[1..]) + ([34] + rest));
      MarkRead(r, i, ms[0], read);
      MarksRead(r, i + |t|, ms[1..], rest, read + MarkValue(ms[0], r.lib));
      ThreeParts(read, MarkValue(ms[0], r.lib), MarksValue(ms[1..], r.lib));
    }
  }

  lemma QuoteEnds(r: Reader, i: nat, rest: Text, read: Text)
    requires At(r.json, i, [34] + rest)
    ensures i < |r.json| && r.StringBody(i, read) == Ok(read, i + 1)
  {
    AtIndex(r.json, i, [34] + rest, 0);
  }

  lemma MarkRead(r: Reader, i: nat, m: Mark, read: Text)
    requires GoodMark(m) && At(r.json, i, MarkText(m))
    ensures i + |MarkText(m)| <= |r.json|
    ensures r.StringBody(i, read) == r.StringBody(i + |MarkText(m)|, read + MarkValue(m, r.lib))
  {
    var t := MarkText(m);
    AtIndex(r.json, i, t, 0);
    if |t| > 1 {
      AtIndex(r.json, i, t, 1);
    }
    match m
    case Itself(_) =>
    case Escaped(c) =>
      UnescapeIs(c);
      assert read + [] == read;
    case Code(four) =>
      UnescapeIs('u' as int);
      AtAppend(r.json, i, [92, 'u' as int], four);
  }

  // ---- blanks and commas ----

  lemma BlankIs(t: Text)
    ensures Blank(t) <==> JsonSyntax.Blank(t)
  {
    forall i | 0 <= i < |t| ensures t[i] in BLANKS <==> IsSpace(t[i]) {
      SpaceIs(t[i]);
    }
  }

  lemma {:induction false} SeparatorSkipped(r: Reader, i: nat, sep: Text, items: seq<Value>, entries: map<Text, Value>)
    requires BlankOrCommas(sep) && At(r.json, i, sep)
    ensures i + |sep| <= |r.json|
    ensures r.ParseItems(i, items) == r.ParseItems(i + |sep|, items)
    ensures r.ParseMembers(i, entries) == r.ParseMembers(i + |sep|, entries)
    decreases |sep|
  {
    hide Reader.ParseItems, Reader.ParseMembers;
    if sep != [] {
      JsonSyntax.FirstOf(r.json, i, sep);
      SpaceIs(sep[0]);
      if IsSpace(sep[0]) {
        JsonSyntax.BlankBeforeItems(r, i, items);
        JsonSyntax.BlankBeforeMembers(r, i, entries);
      } else {
        JsonSyntax.ItemsMark(r, i, items);
        JsonSyntax.MembersMark(r, i, entries);
      }
      SeparatorSkipped(r, i + 1, sep[1..], items, entries);
    }
  }

  // ---- every layout is read ----

  lemma ApartDelimits(json: Text, n: Node, j: nat)
    requires j <= |json| && n.NumberNode?
    ensures Apart(n, json[j..]) <==> JsonSyntax.Delimited(json, j)
  {
    if j < |json| {
      NumberCharIs(json[j]);
    }
  }

  lemma ApartFrom(json: Text, n: Node, j: nat, after: Text)
    requires after != [] && At(json, j, after)
    ensures j < |json| && (Apart(n, after) <==> Apart(n, json[j..]))
  {
    AtIndex(json, j, after, 0);
  }

  lemma LexemeIs(t: Text)
    ensures GoodLexeme(t) <==> IsDoubleText(t)
  {
    forall i | 0 <= i < |t| ensures t[i] in NUMBER_CHARS <==> IsNumberChar(t[i]) {
      NumberCharIs(t[i]);
    }
  }

  lemma StringRead(r: Reader, i: nat, marks: seq<Mark>)
    requires GoodMarks(marks) && At(r.json, i, Named(34, marks, []))
    ensures r.ParseValue(i) == Ok(Str(MarksValue(marks, r.lib)), i + |Named(34, marks, [])|)
  {
    hide MarksText, MarksValue, GoodMarks, Reader.StringBody, Reader.ParseItems, Reader.ParseMembers;
    AtIndex(r.json, i, Named(34, marks, []), 0);
    AtAppend(r.json, i, [34], MarksText(marks) + ([34] + []));
    hide At;
    MarksRead(r, i + 1, marks, [], []);
    assert [] + MarksValue(marks, r.lib) == MarksValue(marks, r.lib);
  }

  /** Wherever a layout stands, it is read as its value, and the index is just after it. */
  lemma {:induction false} LayoutRead(r: Reader, i: nat, n: Node, j: nat)
    requires Stands(r.json, i, n, j)
    ensures r.ParseValue(i) == Ok(ValueOf(n, r.lib), j)
    decreases n
  {
    hide Reader.ParseValue, Reader.ParseItems, Reader.ParseMembers, ItemsText, MembersText, ReadNumber, Named,
      GoodItems, GoodMembers, ItemsValue, MembersValue, MarksValue;
    match n
    case NullNode => JsonSyntax.KeywordReads(r, i);
    case BoolNode(_) => JsonSyntax.KeywordReads(r, i);
    case NumberNode(lexeme) =>
      LexemeIs(lexeme);
      ApartDelimits(r.json, n, j);
      JsonSyntax.LexemeReads(r, i, lexeme);
    case StringNode(marks) => StringRead(r, i, marks);
    case ArrayNode(items) =>
      AtAppend(r.json, i, ['[' as int], ItemsText(items));
      AtIndex(r.json, i, ['[' as int], 0);
      JsonSyntax.ItemsMark(r, i, []);
      ItemsRead(r, i + 1, items, []);
      assert [] + ItemsValue(items, r.lib) == ItemsValue(items, r.lib);
    case ObjectNode(members) =>
      AtAppend(r.json, i, ['{' as int], MembersText(members));
      AtIndex(r.json, i, ['{' as int], 0);
      JsonSyntax.MembersMark(r, i, map[]);
      MembersRead(r, i + 1, members, map[]);
      assert map[] + MembersValue(members, r.lib) == MembersValue(members, r.lib);
  }

  // The end of an array or an object.
  lemma EndRead(r: Reader, i: nat, sep: Text, items: seq<Value>, entries: map<Text, Value>)
    requires BlankOrCommas(sep)
    ensures At(r.json, i, sep + [RBRACKET]) ==> r.ParseItems(i, items) == Ok(List(items + []), i + |sep| + 1)
    ensures At(r.json, i, sep + [RBRACE]) ==> r.ParseMembers(i, entries) == Ok(Map(entries + map[]), i + |sep| + 1)
  {
    hide Reader.ParseItems, Reader.ParseMembers, At, BlankOrCommas;
    assert items + [] == items && entries + map[] == entries;
    if At(r.json, i, sep + [RBRACKET]) {
      JsonSyntax.EndParts(r.json, i, sep, RBRACKET);
      SeparatorSkipped(r, i, sep, items, entries);
      JsonSyntax.ItemsMark(r, i + |sep|, items);
    }
    if At(r.json, i, sep + [RBRACE]) {
      JsonSyntax.EndParts(r.json, i, sep, RBRACE);
      SeparatorSkipped(r, i, sep, items, entries);
      JsonSyntax.MembersMark(r, i + |sep|, entries);
    }
  }

  lemma TextNotEmpty(n: Node)
    requires Good(n)
    ensures TextOf(n) != []
  {
  }

  // One item, with its value read.
  lemma ItemRead(r: Reader, i: nat, sep: Text, text: Text, more: Text, v: Value, read: seq<Value>)
    requires BlankOrCommas(sep) && At(r.json, i, sep + (text + more)) && i + |sep| <= |r.json|
    requires r.ParseValue(i + |sep|) == Ok(v, i + |sep| + |text|)
    ensures i + |sep| + |text| <= |r.json|
    ensures r.ParseItems(i, read) == r.ParseItems(i + |sep| + |text|, read + [v])
  {
    hide Reader.ParseItems, Reader.ParseValue, Reader.ParseMembers, At, BlankOrCommas;
    AtAppend(r.json, i, sep, text + more);
    AtAppend(r.json, i + |sep|, text, more);
    SeparatorSkipped(r, i, sep, read, map[]);
    JsonSyntax.ItemsStep(r, i + |sep|, read);
  }

  // Where an item stands, and the items after it.
  lemma ItemParts(json: Text, i: nat, it: Items)
    requires it.Item? && At(json, i, ItemsText(it))
    ensures var j := i + |it.sep| + |TextOf(it.node)|;
            && At(json, i + |it.sep|, TextOf(it.node)) && At(json, j, ItemsText(it.rest)) && j <= |json|
            && i + |ItemsText(it)| == j + |ItemsText(it.rest)|
  {
    hide At, TextOf;
    var text, more := TextOf(it.node), ItemsText(it.rest);
    AtAppend(json, i, it.sep, text + more);
    AtAppend(json, i + |it.sep|, text, more);
  }

  lemma {:induction false} ItemsRead(r: Reader, i: nat, it: Items, read: seq<Value>)
    requires GoodItems(it) && At(r.json, i, ItemsText(it))
    ensures r.ParseItems(i, read) == Ok(List(read + ItemsValue(it, r.lib)), i + |ItemsText(it)|)
    decreases it
  {
    hide Reader.ParseItems, Reader.ParseMembers, Reader.ParseValue, ValueOf, Good, TextOf, At, Apart, BlankOrCommas;
    match it
    case ItemsEnd(sep) => EndRead(r, i, sep, read, map[]);
    case Item(sep, node, rest) =>
      ItemParts(r.json, i, it);
      var j, v := i + |sep| + |TextOf(node)|, ValueOf(node, r.lib);
      ApartFrom(r.json, node, j, ItemsText(rest));
      LayoutRead(r, i + |sep|, node, j);
      ItemRead(r, i, sep, TextOf(node), ItemsText(rest), v, read);
      ItemsRead(r, j, rest, read + [v]);
      ThreeParts(read, [v], ItemsValue(rest, r.lib));
  }

  lemma KeywordAt(r: Reader, p: nat, t: Text, word: Text)
    requires At(r.json, p, t) && |word| <= |t| && p < |r.json|
    ensures word <= t <==> r.Keyword(p, word)
  {
    assert r.json[p..p + |t|][..|word|] == r.json[p..p + |word|];
  }

  /** A text begins like a token that is no comma and no closing brace if and only if the next
      token there is one. */
  lemma OpensToken(r: Reader, p: nat, t: Text)
    requires At(r.json, p, t) && |t| >= 5 && p < |r.json|
    ensures Opens(t) <==> !IsSpace(r.json[p]) && r.NextToken(p).0 !in {NoToken, Comma, CurlyClose}
    ensures Opens(t) ==> r.SkipSpace(p) == p
  {
    AtIndex(r.json, p, t, 0);
    KeywordAt(r, p, t, TRUE_TEXT);
    KeywordAt(r, p, t, FALSE_TEXT);
    KeywordAt(r, p, t, NULL_TEXT);
    hide Reader.Keyword, At;
  }

  // Past a name and its colon: the index of the value.
  lemma NameRead(r: Reader, p: nat, opener: QChar, name: seq<Mark>, colon: Text, gap: Text, rest: Text)
    requires At(r.json, p, Named(opener, name, Behind(colon, gap, rest)))
    requires GoodMarks(name) && Blank(colon) && Blank(gap) && r.SkipSpace(p) == p
    ensures var e := p + 2 + |MarksText(name)|;
            var c := e + |colon|;
            && c + 1 + |gap| <= |r.json| && At(r.json, c + 1 + |gap|, rest)
            && p < |r.json| && r.ParseString(p) == Ok(MarksValue(name, r.lib), e)
            && r.NextToken(e) == (Colon, c + 1)
            && r.ParseValue(c + 1) == r.ParseValue(c + 1 + |gap|)
            && |Named(opener, name, Behind(colon, gap, rest))| == c + 1 + |gap| + |rest| - p
  {
    hide Reader.ParseValue, Reader.StringBody, Reader.NextToken, At, MarksText, MarksValue, GoodMarks, Blank;
    var e := p + 2 + |MarksText(name)|;
    var c := e + |colon|;
    NameParts(r.json, p, opener, name, colon, gap, rest);
    hide Named, Behind;
    MarksRead(r, p + 1, name, Behind(colon, gap, rest), []);
    assert [] + MarksValue(name, r.lib) == MarksValue(name, r.lib);
    BlankIs(colon);
    BlankIs(gap);
    JsonSyntax.BlanksSkipped(r, e, colon);
    JsonSyntax.MembersMark(r, c, map[]);
    JsonSyntax.BlanksSkipped(r, c + 1, gap);
  }

  lemma OneAt(json: Text, p: nat, c: QChar)
    ensures At(json, p, [c]) <==> p < |json| && json[p] == c
  {
    if p < |json| {
      assert json[p..p + 1] == [json[p]];
    }
  }

  lemma BehindStands(json: Text, e: nat, colon: Text, gap: Text, rest: Text)
    ensures At(json, e, Behind(colon, gap, rest)) <==>
            && At(json, e, colon) && At(json, e + |colon|, [':' as int]) && At(json, e + |colon| + 1, gap)
            && At(json, e + |colon| + 1 + |gap|, rest)
    ensures |Behind(colon, gap, rest)| == |colon| + 1 + |gap| + |rest|
  {
    hide At;
    AtAppend(json, e, colon, [':' as int] + (gap + rest));
    AtAppend(json, e + |colon|, [':' as int], gap + rest);
    AtAppend(json, e + |colon| + 1, gap, rest);
  }

  lemma NamedStands(json: Text, p: nat, opener: QChar, ms: seq<Mark>, rest: Text)
    ensures At(json, p, Named(opener, ms, rest)) <==>
            && At(json, p, [opener]) && At(json, p + 1, MarksText(ms) + ([34] + rest))
    ensures At(json, p, Named(opener, ms, rest)) <==>
            && At(json, p, [opener]) && At(json, p + 1, MarksText(ms) + [34])
            && At(json, p + 2 + |MarksText(ms)|, rest)
    ensures |Named(opener, ms, rest)| == 2 + |MarksText(ms)| + |rest|
  {
    hide At, MarksText;
    var marks := MarksText(ms);
    AtAppend(json, p, [opener], marks + ([34] + rest));
    hide Named;
    AtAppend(json, p + 1, marks, [34]);
    AtAppend(json, p + 1, marks, [34] + rest);
    AtAppend(json, p + 1 + |marks|, [34], rest);
  }

  // Where the parts of a member stand.
  lemma NameParts(json: Text, p: nat, opener: QChar, name: seq<Mark>, colon: Text, gap: Text, rest: Text)
    ensures var e := p + 2 + |MarksText(name)|;
            var c := e + |colon|;
            && |Named(opener, name, Behind(colon, gap, rest))| == c + 1 + |gap| + |rest| - p
            && (At(json, p, Named(opener, name, Behind(colon, gap, rest))) ==>
                  && At(json, p + 1, MarksText(name) + ([34] + Behind(colon, gap, rest)))
                  && At(json, e, colon) && c < |json| && json[c] == COLON && At(json, c + 1, gap)
                  && At(json, c + 1 + |gap|, rest) && c + 1 + |gap| + |rest| <= |json|)
  {
    hide At, MarksText, Named, Behind;
    NamedStands(json, p, opener, name, Behind(colon, gap, rest));
    var e := p + 2 + |MarksText(name)|;
    BehindStands(json, e, colon, gap, rest);
    OneAt(json, e + |colon|, ':' as int);
    Fits(json, p, Named(opener, name, Behind(colon, gap, rest)));
  }

  lemma Fits(json: Text, p: nat, t: Text)
    ensures At(json, p, t) ==> p + |t| <= |json|
  {
  }

  lemma MembersStep(r: Reader, i: nat, read: map<Text, Value>, j: nat)
    requires i < |r.json| && r.NextToken(i).0 !in {NoToken, Comma, CurlyClose} && r.SkipSpace(i) < |r.json|
    requires r.ParseString(i).Ok? && r.NextToken(r.ParseString(i).next) == (Colon, j)
    requires j <= |r.json| && r.ParseValue(j).Ok?
    ensures r.ParseMembers(i, read) ==
            r.ParseMembers(r.ParseValue(j).next, read[r.ParseString(i).value := r.ParseValue(j).value])
  {
  }

  // One member behind its separator, with its value read.
  lemma NamedRead(
    r: Reader, p: nat, opener: QChar, name: seq<Mark>, colon: Text, gap: Text, rest: Text, v: Value, j: nat,
    read: map<Text, Value>)
    requires At(r.json, p, Named(opener, name, Behind(colon, gap, rest))) && |rest| >= 2
    requires Opens(Named(opener, name, Behind(colon, gap, rest))) && GoodMarks(name) && Blank(colon) && Blank(gap)
    requires var q := p + |Named(opener, name, Behind(colon, gap, rest))| - |rest|;
             0 <= q <= |r.json| && r.ParseValue(q) == Ok(v, j)
    ensures p <= |r.json| && r.ParseMembers(p, read) == r.ParseMembers(j, read[MarksValue(name, r.lib) := v])
  {
    hide Reader.ParseMembers, Reader.ParseValue, At, MarksValue, MarksText, Named, Behind, Blank, GoodMarks,
      Reader.NextToken, Reader.SkipSpace, Reader.ParseString, Opens;
    NameParts(r.json, p, opener, name, colon, gap, rest);
    OpensToken(r, p, Named(opener, name, Behind(colon, gap, rest)));
    NameRead(r, p, opener, name, colon, gap, rest);
    MembersStep(r, p, read, p + 2 + |MarksText(name)| + |colon| + 1);
  }

  // One member, with its value read.
  lemma MemberRead(r: Reader, i: nat, m: Members, j: nat, v: Value, read: map<Text, Value>)
    requires m.Member? && At(r.json, i, MembersText(m)) && j <= |r.json|
    requires BlankOrCommas(m.sep) && Opens(MemberText(m)) && GoodMarks(m.name) && Blank(m.colon) && Blank(m.gap)
    requires Good(m.node) && j == i + |MembersText(m)| - |MembersText(m.rest)|
    requires 0 <= j - |TextOf(m.node)| <= |r.json| && r.ParseValue(j - |TextOf(m.node)|) == Ok(v, j)
    ensures r.ParseMembers(i, read) == r.ParseMembers(j, read[MarksValue(m.name, r.lib) := v])
  {
    hide Reader.ParseMembers, Reader.ParseValue, Good, TextOf, At, BlankOrCommas, MarksValue, Named, Behind,
      Blank, GoodMarks, Opens;
    AtAppend(r.json, i, m.sep, MemberText(m));
    SeparatorSkipped(r, i, m.sep, [], read);
    TextNotEmpty(m.node);
    var rest := TextOf(m.node) + MembersText(m.rest);
    NamedRead(r, i + |m.sep|, m.opener, m.name, m.colon, m.gap, rest, v, j, read);
  }

  // Where the value of a member stands, and the members after it.
  lemma MemberParts(json: Text, i: nat, m: Members)
    requires m.Member? && At(json, i, MembersText(m))
    ensures var j := i + |MembersText(m)| - |MembersText(m.rest)|;
            && |TextOf(m.node)| <= j - i && j <= |json|
            && At(json, j - |TextOf(m.node)|, TextOf(m.node)) && At(json, j, MembersText(m.rest))
  {
    hide At, TextOf, Named, Behind;
    var text, more := TextOf(m.node), MembersText(m.rest);
    AtAppend(json, i, m.sep, MemberText(m));
    var p := i + |m.sep|;
    NameParts(json, p, m.opener, m.name, m.colon, m.gap, text + more);
    AtAppend(json, p + 2 + |MarksText(m.name)| + |m.colon| + 1 + |m.gap|, text, more);
  }

  lemma {:induction false} MembersRead(r: Reader, i: nat, m: Members, read: map<Text, Value>)
    requires GoodMembers(m) && At(r.json, i, MembersText(m))
    ensures r.ParseMembers(i, read) == Ok(Map(read + MembersValue(m, r.lib)), i + |MembersText(m)|)
    decreases m
  {
    hide Reader.ParseMembers, Reader.ParseValue, ValueOf, Good, TextOf, At, Apart, BlankOrCommas, MarksValue,
      Named, Behind, Blank, GoodMarks, Opens;
    match m
    case MembersEnd(sep) => EndRead(r, i, sep, [], read);
    case Member(sep, opener, name, colon, gap, node, rest) =>
      MemberParts(r.json, i, m);
      var j, v := i + |MembersText(m)| - |MembersText(rest)|, ValueOf(node, r.lib);
      ApartFrom(r.json, node, j, MembersText(rest));
      LayoutRead(r, j - |TextOf(node)|, node, j);
      MemberRead(r, i, m, j, v, read);
      MembersRead(r, j, rest, read[MarksValue(name, r.lib) := v]);
      JsonSyntax.OneMore(read, MarksValue(name, r.lib), v, MembersValue(rest, r.lib));
  }

  // ---- what is read is a layout ----

  lemma AtSlice(json: Text, i: nat, j: nat)
    requires i <= j <= |json|
    ensures At(json, i, json[i..j]) && |json[i..j]| == j - i
  {
  }

  lemma {:induction false} SkippedIsBlank(r: Reader, i: nat)
    requires i <= |r.json|
    ensures Blank(r.json[i..r.SkipSpace(i)])
    decreases |r.json| - i
  {
    if i < |r.json| && IsSpace(r.json[i]) {
      SkippedIsBlank(r, i + 1);
      SpaceIs(r.json[i]);
      assert r.json[i..r.SkipSpace(i)] == [r.json[i]] + r.json[i + 1..r.SkipSpace(i + 1)];
    }
  }

  // The mark that the string loop takes at index i.
  lemma MarkAt(r: Reader, i: nat, read: Text) returns (m: Mark)
    requires i < |r.json| && r.json[i] != QUOTE && r.StringBody(i, read).Ok?
    ensures GoodMark(m) && At(r.json, i, MarkText(m)) && 1 <= |MarkText(m)| <= |r.json| - i
    ensures r.StringBody(i, read) == r.StringBody(i + |MarkText(m)|, read + MarkValue(m, r.lib))
  {
    hide Reader.StringBody, At;
    if r.json[i] != BACKSLASH {
      m := Itself(r.json[i]);
      OneAt(r.json, i, r.json[i]);
      MarkRead(r, i, m, read);
      return;
    }
    BackslashIs(r, i, read);
    if r.json[i + 1] == 'u' as int {
      m := Code(r.json[i + 2..i + 6]);
    } else {
      m := Escaped(r.json[i + 1]);
    }
    MarkRead(r, i, m, read);
  }

  // What follows a backslash in a string that is read.
  lemma BackslashIs(r: Reader, i: nat, read: Text)
    requires i < |r.json| && r.StringBody(i, read).Ok? && r.json[i] == BACKSLASH
    ensures i + 1 < |r.json| && At(r.json, i, [92, r.json[i + 1]])
    ensures r.json[i + 1] == 'u' as int ==>
              && i + 6 <= |r.json| && At(r.json, i, MarkText(Code(r.json[i + 2..i + 6])))
  {
    UnescapeIs('u' as int);
    assert r.json[i..i + 2] == [92, r.json[i + 1]];
    if r.json[i + 1] == 'u' as int {
      assert r.json[i..i + 6] == MarkText(Code(r.json[i + 2..i + 6]));
    }
  }

  lemma BodyGoesOn(r: Reader, i: nat, read: Text)
    requires i <= |r.json| && r.StringBody(i, read).Ok?
    ensures i < |r.json| && (r.json[i] == QUOTE ==> r.StringBody(i, read) == Ok(read + [], i + 1))
  {
    assert read + [] == read;
  }

  lemma {:induction false} MarksAt(r: Reader, i: nat, read: Text) returns (ms: seq<Mark>)
    requires i <= |r.json| && r.StringBody(i, read).Ok?
    ensures GoodMarks(ms) && At(r.json, i, MarksText(ms) + [34])
    ensures r.StringBody(i, read) == Ok(read + MarksValue(ms, r.lib), i + |MarksText(ms)| + 1)
    decreases |r.json| - i
  {
    hide Reader.StringBody, MarkText, MarkValue, GoodMark, At;
    BodyGoesOn(r, i, read);
    if r.json[i] == QUOTE {
      ms := [];
      OneAt(r.json, i, 34);
      assert MarksText(ms) + [34] == [34];
    } else {
      var m := MarkAt(r, i, read);
      var rest := MarksAt(r, i + |MarkText(m)|, read + MarkValue(m, r.lib));
      ms := [m] + rest;
      assert ms[1..] == rest;
      AtAppend(r.json, i, MarkText(m), MarksText(rest) + [34]);
      ThreeParts(MarkText(m), MarksText(rest), [34]);
      ThreeParts(read, MarkValue(m, r.lib), MarksValue(rest, r.lib));
    }
  }

  lemma {:induction false} NumberStands(r: Reader, i: nat)
    requires i <= |r.json|
    ensures forall k :: i <= k < r.NumberEnd(i) ==> IsNumberChar(r.json[k])
    ensures JsonSyntax.Delimited(r.json, r.NumberEnd(i))
    decreases |r.json| - i
  {
    if i < |r.json| && IsNumberChar(r.json[i]) {
      NumberStands(r, i + 1);
    }
  }

  lemma NumberAt(r: Reader, i: nat) returns (n: Node)
    requires i <= |r.json| && r.NextToken(i).0 == NumberToken
    ensures Stands(r.json, r.SkipSpace(i), n, r.ParseNumber(i).next) && ValueOf(n, r.lib) == r.ParseNumber(i).value
  {
    var p := r.SkipSpace(i);
    var e := r.NumberEnd(p);
    NumberStands(r, p);
    n := NumberNode(r.json[p..e]);
    LexemeIs(r.json[p..e]);
    ApartDelimits(r.json, n, e);
    AtSlice(r.json, p, e);
    hide ReadNumber;
  }

  lemma StringAt(r: Reader, i: nat) returns (n: Node)
    requires i <= |r.json| && r.NextToken(i).0 == StringToken && r.ParseString(i).Ok?
    ensures Stands(r.json, r.SkipSpace(i), n, r.ParseString(i).next)
    ensures ValueOf(n, r.lib) == Str(r.ParseString(i).value)
  {
    var p := r.SkipSpace(i);
    hide MarksText, MarksValue, GoodMarks;
    var ms := MarksAt(r, p + 1, []);
    n := StringNode(ms);
    AtSlice(r.json, p, p + 1);
    assert r.json[p..p + 1] == [34];
    AtAppend(r.json, p, [34], MarksText(ms) + [34]);
    assert Named(34, ms, []) == [34] + (MarksText(ms) + [34]);
    assert [] + MarksValue(ms, r.lib) == MarksValue(ms, r.lib);
  }

  lemma KeywordStands(r: Reader, i: nat)
    requires i <= |r.json|
    ensures var (token, next) := r.NextToken(i);
            var p := r.SkipSpace(i);
            && (token == TrueToken ==> Stands(r.json, p, BoolNode(true), next))
            && (token == FalseToken ==> Stands(r.json, p, BoolNode(false), next))
            && (token == NullToken ==> Stands(r.json, p, NullNode, next))
            && ValueOf(BoolNode(true), r.lib) == Bool(true) && ValueOf(BoolNode(false), r.lib) == Bool(false)
            && ValueOf(NullNode, r.lib) == Null
  {
    hide Reader.SkipSpace;
  }

  lemma BracketStands(r: Reader, i: nat)
    requires i <= |r.json|
    ensures var (token, next) := r.NextToken(i);
            var p := r.SkipSpace(i);
            && (token == SquaredOpen ==> next == p + 1 && At(r.json, p, ['[' as int]))
            && (token == CurlyOpen ==> next == p + 1 && At(r.json, p, ['{' as int]))
            && (token == SquaredClose ==> next == p + 1 && At(r.json, p, [']' as int]))
            && (token == CurlyClose ==> next == p + 1 && At(r.json, p, ['}' as int]))
            && (token == Comma ==> next == p + 1 && At(r.json, p, [',' as int]))
            && (token == Colon ==> next == p + 1 && At(r.json, p, [':' as int]))
  {
    hide Reader.SkipSpace, Reader.Keyword;
  }

  lemma ValueCases(r: Reader, i: nat)
    requires i <= |r.json| && r.ParseValue(i).Ok?
    ensures var (token, next) := r.NextToken(i);
            var read := r.ParseValue(i);
            && (token == StringToken ==>
                  r.ParseString(i).Ok? && read == Ok(Str(r.ParseString(i).value), r.ParseString(i).next))
            && (token == NumberToken ==> read == r.ParseNumber(i))
            && (token == CurlyOpen ==> read == r.ParseMembers(next, map[]))
            && (token == SquaredOpen ==> read == r.ParseItems(next, []))
            && (token == TrueToken ==> read == Ok(Bool(true), next))
            && (token == FalseToken ==> read == Ok(Bool(false), next))
            && (token == NullToken ==> read == Ok(Null, next))
            && token in {StringToken, NumberToken, CurlyOpen, SquaredOpen, TrueToken, FalseToken, NullToken}
  {
    hide Reader.ParseString, Reader.ParseNumber, Reader.ParseItems, Reader.ParseMembers;
  }

  /** Whatever parses is a layout, behind blanks, of what it parses to. */
  lemma {:induction false} LayoutAt(r: Reader, i: nat) returns (n: Node)
    requires i <= |r.json| && r.ParseValue(i).Ok?
    ensures Stands(r.json, r.SkipSpace(i), n, r.ParseValue(i).next) && ValueOf(n, r.lib) == r.ParseValue(i).value
    decreases |r.json| - i, 1
  {
    hide Reader.NextToken, Reader.SkipSpace, Reader.ParseString, Reader.ParseNumber, Reader.ParseItems,
      Reader.ParseMembers, Reader.ParseValue, ReadNumber, At, Named, Stands, ValueOf, ItemsText, MembersText;
    ValueCases(r, i);
    match r.NextToken(i).0
    case StringToken => n := StringAt(r, i);
    case NumberToken => n := NumberAt(r, i);
    case SquaredOpen => n := BracketAt(r, i);
    case CurlyOpen => n := BracketAt(r, i);
    case TrueToken =>
      KeywordStands(r, i);
      n := BoolNode(true);
    case FalseToken =>
      KeywordStands(r, i);
      n := BoolNode(false);
    case NullToken =>
      KeywordStands(r, i);
      n := NullNode;
  }

  lemma {:induction false} BracketAt(r: Reader, i: nat) returns (n: Node)
    requires i <= |r.json| && r.ParseValue(i).Ok? && r.NextToken(i).0 in {SquaredOpen, CurlyOpen}
    ensures Stands(r.json, r.SkipSpace(i), n, r.ParseValue(i).next) && ValueOf(n, r.lib) == r.ParseValue(i).value
    decreases |r.json| - i, 0
  {
    hide Reader.NextToken, Reader.SkipSpace, Reader.ParseString, Reader.ParseNumber, Reader.ParseItems,
      Reader.ParseMembers, Reader.ParseValue, At, Stands, ValueOf, ItemsText, MembersText, GoodItems, GoodMembers;
    ValueCases(r, i);
    BracketStands(r, i);
    var next := r.NextToken(i).1;
    if r.NextToken(i).0 == SquaredOpen {
      var it := ItemsAt(r, next, []);
      n := ArrayNode(it);
      ArrayStands(r, next - 1, it);
    } else {
      var m := MembersAt(r, next, map[]);
      n := ObjectNode(m);
      ObjectStands(r, next - 1, m);
    }
  }

  lemma ArrayStands(r: Reader, p: nat, it: Items)
    requires At(r.json, p, ['[' as int]) && GoodItems(it) && At(r.json, p + 1, ItemsText(it))
    ensures Stands(r.json, p, ArrayNode(it), p + 1 + |ItemsText(it)|)
    ensures ValueOf(ArrayNode(it), r.lib) == List([] + ItemsValue(it, r.lib))
  {
    hide At, GoodItems, ItemsText;
    AtAppend(r.json, p, ['[' as int], ItemsText(it));
    assert [] + ItemsValue(it, r.lib) == ItemsValue(it, r.lib);
  }

  lemma ObjectStands(r: Reader, p: nat, m: Members)
    requires At(r.json, p, ['{' as int]) && GoodMembers(m) && At(r.json, p + 1, MembersText(m))
    ensures Stands(r.json, p, ObjectNode(m), p + 1 + |MembersText(m)|)
    ensures ValueOf(ObjectNode(m), r.lib) == Map(map[] + MembersValue(m, r.lib))
  {
    hide At, GoodMembers, MembersText;
    AtAppend(r.json, p, ['{' as int], MembersText(m));
    assert map[] + MembersValue(m, r.lib) == MembersValue(m, r.lib);
  }

  // What stands behind more blanks and commas.
  function LaterItems(t: Text, it: Items): Items {
    it.(sep := t + it.sep)
  }

  function LaterMembers(t: Text, m: Members): Members {
    m.(sep := t + m.sep)
  }

  lemma LaterIs(t: Text, it: Items, m: Members)
    requires BlankOrCommas(t)
    ensures ItemsText(LaterItems(t, it)) == t + ItemsText(it)
    ensures MembersText(LaterMembers(t, m)) == t + MembersText(m)
    ensures GoodItems(it) ==> GoodItems(LaterItems(t, it))
    ensures GoodMembers(m) ==> GoodMembers(LaterMembers(t, m))
  {
    hide TextOf, Named, Good, Opens, GoodMarks;
    if it.Item? {
      ThreeParts(t, it.sep, TextOf(it.node) + ItemsText(it.rest));
    }
    if m.Member? {
      assert MemberText(LaterMembers(t, m)) == MemberText(m);
      ThreeParts(t, m.sep, MemberText(m));
    }
  }

  // The separator that ends with a comma, and the one before a value or a closing bracket.
  lemma SeparatorStands(r: Reader, i: nat)
    requires i <= |r.json|
    ensures var p := r.SkipSpace(i);
            && BlankOrCommas(r.json[i..p]) && At(r.json, i, r.json[i..p])
            && (r.NextToken(i).0 == Comma ==>
                  BlankOrCommas(r.json[i..p + 1]) && At(r.json, i, r.json[i..p + 1]))
  {
    hide Reader.SkipSpace, Reader.NextToken, At, Blank, BlankOrCommas;
    var p := r.SkipSpace(i);
    SkippedIsBlank(r, i);
    BracketStands(r, i);
    AtSlice(r.json, i, p);
    BlankThenComma(r.json[i..p]);
    if r.NextToken(i).0 == Comma {
      OneAt(r.json, p, ',' as int);
      AtSlice(r.json, i, p + 1);
      assert r.json[i..p + 1] == r.json[i..p] + [',' as int];
    }
  }

  lemma BlankThenComma(t: Text)
    requires Blank(t)
    ensures BlankOrCommas(t) && BlankOrCommas(t + [',' as int])
  {
  }

  lemma {:induction false} ItemsAt(r: Reader, i: nat, read: seq<Value>) returns (it: Items)
    requires i <= |r.json| && r.ParseItems(i, read).Ok?
    ensures GoodItems(it) && At(r.json, i, ItemsText(it))
    ensures r.ParseItems(i, read) == Ok(List(read + ItemsValue(it, r.lib)), i + |ItemsText(it)|)
    decreases |r.json| - i, 2
  {
    hide Reader.NextToken, Reader.SkipSpace, Reader.ParseValue, At, TextOf, Good, BlankOrCommas, ValueOf, Apart;
    var (token, next) := r.NextToken(i);
    var p := r.SkipSpace(i);
    SeparatorStands(r, i);
    BracketStands(r, i);
    if token == Comma {
      it := ItemsAt(r, next, read);
      LaterIs(r.json[i..next], it, MembersEnd([]));
      AtAppend(r.json, i, r.json[i..next], ItemsText(it));
      it := LaterItems(r.json[i..next], it);
    } else if token == SquaredClose {
      it := ItemsEnd(r.json[i..p]);
      AtAppend(r.json, i, r.json[i..p], [']' as int]);
      assert read + [] == read;
    } else {
      var v := r.ParseValue(i);
      var n := LayoutAt(r, i);
      var rest := ItemsAt(r, v.next, read + [v.value]);
      it := Item(r.json[i..p], n, rest);
      ItemStands(r.json, i, p, n, v.next, rest);
      ThreeParts(read, [v.value], ItemsValue(rest, r.lib));
    }
  }

  lemma ItemStands(json: Text, i: nat, p: nat, n: Node, j: nat, rest: Items)
    requires i <= p <= |json| && At(json, i, json[i..p]) && Stands(json, p, n, j) && At(json, j, ItemsText(rest))
    ensures At(json, i, ItemsText(Item(json[i..p], n, rest))) && Apart(n, ItemsText(rest))
    ensures i + |ItemsText(Item(json[i..p], n, rest))| == j + |ItemsText(rest)|
  {
    hide At, TextOf, Good, Apart;
    AtAppend(json, p, TextOf(n), ItemsText(rest));
    AtAppend(json, i, json[i..p], TextOf(n) + ItemsText(rest));
    ApartFrom(json, n, j, ItemsText(rest));
  }

  lemma {:induction false} MembersAt(r: Reader, i: nat, read: map<Text, Value>) returns (m: Members)
    requires i <= |r.json| && r.ParseMembers(i, read).Ok?
    ensures GoodMembers(m) && At(r.json, i, MembersText(m))
    ensures r.ParseMembers(i, read) == Ok(Map(read + MembersValue(m, r.lib)), i + |MembersText(m)|)
    decreases |r.json| - i, 2
  {
    hide Reader.NextToken, Reader.SkipSpace, Reader.ParseValue, Reader.ParseString, At, TextOf, Good,
      BlankOrCommas, ValueOf, Apart, Opens, GoodMarks, Blank, MarksValue, Named, Behind;
    var (token, next) := r.NextToken(i);
    var p := r.SkipSpace(i);
    SeparatorStands(r, i);
    BracketStands(r, i);
    if token == Comma {
      m := MembersAt(r, next, read);
      LaterIs(r.json[i..next], ItemsEnd([]), m);
      AtAppend(r.json, i, r.json[i..next], MembersText(m));
      m := LaterMembers(r.json[i..next], m);
    } else if token == CurlyClose {
      m := MembersEnd(r.json[i..p]);
      AtAppend(r.json, i, r.json[i..p], ['}' as int]);
      assert read + map[] == read;
    } else {
      var name := r.ParseString(i);
      var k := r.NextToken(name.next).1;
      var v := r.ParseValue(k);
      var n := LayoutAt(r, k);
      var rest := MembersAt(r, v.next, read[name.value := v.value]);
      m := MemberAt(r, i, n, rest);
      JsonSyntax.OneMore(read, name.value, v.value, MembersValue(rest, r.lib));
    }
  }

  // The member that the object loop takes at index i, from the parts of it that stand there.
  lemma MemberAt(r: Reader, i: nat, n: Node, rest: Members) returns (m: Members)
    requires i <= |r.json| && r.NextToken(i).0 !in {NoToken, Comma, CurlyClose} && r.SkipSpace(i) < |r.json|
    requires r.ParseString(i).Ok? && r.NextToken(r.ParseString(i).next).0 == Colon
    requires var k := r.NextToken(r.ParseString(i).next).1;
             && r.ParseValue(k).Ok? && Stands(r.json, r.SkipSpace(k), n, r.ParseValue(k).next)
             && At(r.json, r.ParseValue(k).next, MembersText(rest)) && GoodMembers(rest)
    ensures m.Member? && m.node == n && m.rest == rest && MarksValue(m.name, r.lib) == r.ParseString(i).value
    ensures GoodMembers(m) && At(r.json, i, MembersText(m))
    ensures i + |MembersText(m)| ==
            r.ParseValue(r.NextToken(r.ParseString(i).next).1).next + |MembersText(rest)|
  {
    hide Reader.NextToken, Reader.SkipSpace, Reader.ParseValue, Reader.StringBody, At, TextOf, Good,
      BlankOrCommas, Apart, Opens, GoodMarks, Blank, MarksValue, MarksText;
    var p, e := r.SkipSpace(i), r.ParseString(i).next;
    var c, k := r.SkipSpace(e), r.NextToken(e).1;
    var q, j := r.SkipSpace(k), r.ParseValue(k).next;
    var ms := MarksAt(r, p + 1, []);
    assert [] + MarksValue(ms, r.lib) == MarksValue(ms, r.lib);
    m := Member(r.json[i..p], r.json[p], ms, r.json[e..c], r.json[k..q], n, rest);
    SeparatorStands(r, i);
    SkippedIsBlank(r, e);
    SkippedIsBlank(r, k);
    BracketStands(r, e);
    MemberStands(r.json, i, p, ms, e, c, q, n, j, rest);
    MemberOpens(r, i, m);
  }

  lemma MemberStands(
    json: Text, i: nat, p: nat, ms: seq<Mark>, e: nat, c: nat, q: nat, n: Node, j: nat, rest: Members)
    requires i <= p < e <= c < q <= |json|
    requires At(json, p + 1, MarksText(ms) + [34]) && e == p + 2 + |MarksText(ms)| && At(json, c, [':' as int])
    requires Stands(json, q, n, j) && At(json, j, MembersText(rest))
    ensures var m := Member(json[i..p], json[p], ms, json[e..c], json[c + 1..q], n, rest);
            && At(json, i, MembersText(m)) && At(json, p, MemberText(m)) && Apart(n, MembersText(rest))
            && i + |MembersText(m)| == j + |MembersText(rest)| && |MemberText(m)| >= 5
  {
    hide TextOf, Good, Apart, MarksText, At, Named, Behind;
    TextNotEmpty(n);
    ApartFrom(json, n, j, MembersText(rest));
    AtSlice(json, i, p);
    AtSlice(json, e, c);
    AtSlice(json, c + 1, q);
    OneAt(json, p, json[p]);
    var after := TextOf(n) + MembersText(rest);
    var behind := Behind(json[e..c], json[c + 1..q], after);
    AtAppend(json, q, TextOf(n), MembersText(rest));
    BehindStands(json, e, json[e..c], json[c + 1..q], after);
    NamedStands(json, p, json[p], ms, behind);
    AtAppend(json, i, json[i..p], Named(json[p], ms, behind));
  }

  lemma MemberOpens(r: Reader, i: nat, m: Members)
    requires m.Member? && i <= |r.json| && r.SkipSpace(i) < |r.json|
    requires At(r.json, r.SkipSpace(i), MemberText(m)) && |MemberText(m)| >= 5
    requires r.NextToken(i).0 !in {NoToken, Comma, CurlyClose}
    ensures Opens(MemberText(m))
  {
    hide At, Opens;
    var p := r.SkipSpace(i);
    assert r.SkipSpace(p) == p && r.NextToken(p) == r.NextToken(i);
    OpensToken(r, p, MemberText(m));
  }

  // ---- the theorem ----

  /** The text begins with blanks, and the layout of n behind them ends at index next. */
  ghost predicate Begins(json: Text, lead: Text, n: Node, next: nat) {
    Blank(lead) && At(json, 0, lead) && Stands(json, |lead|, n, next)
  }

  /** A text parses to a value, up to some index, if and only if blanks and a layout of that
      value stand there. */
  lemma ParsesIff(json: Text, lib: Lib, v: Value, next: nat)
    ensures Reader(json, lib).ParseValue(0) == Ok(v, next) <==>
            exists lead, n :: Begins(json, lead, n, next) && ValueOf(n, lib) == v
  {
    hide Reader.ParseValue, Reader.SkipSpace, ValueOf, Stands, At;
    var r := Reader(json, lib);
    if r.ParseValue(0) == Ok(v, next) {
      var n := LayoutAt(r, 0);
      var lead := json[0..r.SkipSpace(0)];
      SkippedIsBlank(r, 0);
      AtSlice(json, 0, r.SkipSpace(0));
      assert Begins(json, lead, n, next) && ValueOf(n, lib) == v;
    }
    if exists lead, n :: Begins(json, lead, n, next) && ValueOf(n, lib) == v {
      var lead, n :| Begins(json, lead, n, next) && ValueOf(n, lib) == v;
      BlankIs(lead);
      JsonSyntax.BlanksSkipped(r, 0, lead);
      LayoutRead(r, |lead|, n, next);
    }
  }

  /** A text is rejected if and only if it does not begin with a layout. */
  lemma RejectedIff(json: Text, lib: Lib)
    ensures Reader(json, lib).ParseValue(0).Fail? <==> !exists lead, n, next :: Begins(json, lead, n, next)
  {
    hide Reader.ParseValue, ValueOf, Begins;
    var read := Reader(json, lib).ParseValue(0);
    if read.Ok? {
      ParsesIff(json, lib, read.value, read.next);
    }
    forall lead, n, next | Begins(json, lead, n, next) ensures read.Ok? {
      ParsesIff(json, lib, ValueOf(n, lib), next);
    }
  }
}
