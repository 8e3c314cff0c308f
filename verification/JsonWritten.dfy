/** What the serializer writes, as one of the texts of the grammar. */
module JsonWritten {
  import opened Common
  import opened JsonText
  import opened JsonSerializer
  import opened JsonParser
  import opened JsonSyntax

  /** What parsing the text of a value gives back: the value itself, except that a double
      whose text has no decimal point returns as a string. */
  function Reread(v: Value, lib: Lib): Value {
    match v
    case Dbl(d) =>
      (match DoubleText(d, lib)
       case Some(t) => if DOT in t then v else Str(t)
       case None => v)
    case List(items) => List(seq(|items|, i requires 0 <= i < |items| => Reread(items[i], lib)))
    case Map(entries) => Map(map k | k in entries :: Reread(entries[k], lib))
    case _ => v
  }

  /** No double in the tree is printed by the library with an exponent and no point (as 1e+22
      is); one with neither gets ".0". */
  ghost predicate PointedDoubles(v: Value, lib: Lib) {
    match v
    case Dbl(d) => lib.number(d).Some? ==> DOT in lib.number(d).value || 'e' as int !in lib.number(d).value
    case List(items) => forall i :: 0 <= i < |items| ==> PointedDoubles(items[i], lib)
    case Map(entries) => forall k :: k in entries ==> PointedDoubles(entries[k], lib)
    case _ => true
  }

  // ---- numbers ----

  /** A printed integer of any of the four integer types reads back by value. */
  lemma IntegerReads(n: Int64, lib: Lib)
    ensures IsDoubleText(DecimalInt(n)) && ReadNumber(DecimalInt(n), lib) == Num(n)
  {
    var t := DecimalInt(n);
    DecimalDigits(if n < 0 then -n else n);
    assert n < 0 ==> t[0] == MINUS && t[1..] == Decimal(-n);
    forall k | 0 <= k < |t| ensures IsNumberChar(t[k]) && t[k] != DOT {
      if n < 0 && k > 0 {
        assert t[k] == t[1..][k - 1];
      }
    }
    DecimalIntReads(n, -0x8000_0000, 0x7FFF_FFFF);
    DecimalIntReads(n, -0x8000_0000_0000_0000, 0x7FFF_FFFF_FFFF_FFFF);
    DecimalIntReads(n, 0, 0xFFFF_FFFF);
    DecimalIntReads(n, 0, 0xFFFF_FFFF_FFFF_FFFF);
  }

  /** A printed double reads back as itself, or as a string when its text has no point. */
  lemma DoubleReads(d: Double, lib: Lib)
    requires lib.Valid() && DoubleText(d, lib).Some?
    ensures IsDoubleText(DoubleText(d, lib).value)
    ensures ReadNumber(DoubleText(d, lib).value, lib) == Reread(Dbl(d), lib)
  {
    var n := lib.number(d).value;
    var t := WithPoint(n);
    assert IsDoubleText(n);
    if t != n {
      assert forall k :: 0 <= k < |n| ==> t[k] == n[k];
      assert t[|n|] == DOT;
    } else if DOT !in t {
      var k :| 0 <= k < |t| && t[k] == 'e' as int;
      assert k > 0 ==> t[1..][k - 1] == t[k];
      assert !AllDigits(t) && !(t[0] == MINUS && AllDigits(t[1..]));
    }
  }

  // ---- the serialized text as concrete syntax ----

  function PieceOf(c: QChar): Piece {
    if c == BACKSLASH then Short(BACKSLASH)
    else if c == QUOTE then Short(QUOTE)
    else if c == BS then Short('b' as int)
    else if c == FF then Short('f' as int)
    else if c == LF then Short('n' as int)
    else if c == CR then Short('r' as int)
    else if c == TAB then Short('t' as int)
    else Plain(c)
  }

  function PiecesOf(s: Text): (ps: seq<Piece>)
    ensures |ps| == |s|
    ensures forall i :: 0 <= i < |ps| ==> ps[i] == PieceOf(s[i])
  {
    if s == [] then [] else [PieceOf(s[0])] + PiecesOf(s[1..])
  }

  lemma {:induction false} PiecesOfReads(s: Text)
    ensures GoodPieces(PiecesOf(s)) && PiecesText(PiecesOf(s)) == Escape(s) && PiecesValue(PiecesOf(s)) == s
    decreases |s|
  {
    hide PieceOf, EscapeChar, PieceText, PieceChar, GoodPiece;
    if s != [] {
      PiecesOfReads(s[1..]);
      PieceOfReads(s[0]);
      assert PiecesOf(s)[0] == PieceOf(s[0]) && PiecesOf(s)[1..] == PiecesOf(s[1..]);
      assert s == [s[0]] + s[1..];
    }
  }

  lemma PieceOfReads(c: QChar)
    ensures GoodPiece(PieceOf(c)) && PieceText(PieceOf(c)) == EscapeChar(c) && PieceChar(PieceOf(c)) == c
  {
  }

  /** The serialized string is a string of the grammar. */
  lemma QuotedIsSanitized(s: Text)
    ensures GoodPieces(PiecesOf(s)) && Quoted(PiecesOf(s)) == Sanitize(s) && PiecesValue(PiecesOf(s)) == s
  {
    PiecesOfReads(s);
    SanitizeEscapesOnce(s);
    hide PiecesText, PiecesValue, GoodPieces, Sanitize, Escape;
    assert [QUOTE] + Escape(s) + [QUOTE] == [QUOTE] + (Escape(s) + [QUOTE]);
  }

  function NodeOf(v: Value, lib: Lib): Node
    requires lib.Valid() && Serialize(v, lib).Some?
    decreases v, 1
  {
    match v
    case Null => NullNode
    case Bool(b) => BoolNode(b)
    case Num(n) => NumberNode(DecimalInt(n))
    case Dbl(d) => NumberNode(DoubleText(d, lib).value)
    case Str(s) => StringNode(PiecesOf(s))
    case List(items) => ArrayNode(ItemsOf(v, 0, lib))
    case Map(entries) => ObjectNode(MembersOf(v, lib.order(entries), true, lib))
  }

  function EndBlank(first: bool): Text {
    if first then [SPACE, SPACE] else [SPACE]
  }

  function ItemsOf(v: Value, k: nat, lib: Lib): Items
    requires lib.Valid() && v.List? && k <= |v.items| && Texts(v, k, lib).Some?
    decreases v, 0, |v.items| - k
  {
    if k == |v.items| then ItemsEnd(EndBlank(k == 0))
    else Item([], [SPACE], NodeOf(v.items[k], lib), ItemsOf(v, k + 1, lib))
  }

  function MembersOf(v: Value, keys: seq<Text>, first: bool, lib: Lib): Members
    requires lib.Valid() && v.Map? && (forall k :: k in keys ==> k in v.entries) && Pairs(v, keys, lib).Some?
    decreases v, 0, |keys|
  {
    if keys == [] then MembersEnd(EndBlank(first))
    else
      Member([], [SPACE], PiecesOf(keys[0]), [SPACE], [SPACE], NodeOf(v.entries[keys[0]], lib),
             MembersOf(v, keys[1..], false, lib))
  }

  // Joined texts between an opening and a closing bracket, from some text on.
  function Glued(texts: seq<Text>, first: bool, close: QChar): Text {
    (if first then [SPACE] else if texts != [] then LIST_SEP else []) + (JoinFrom(texts, LIST_SEP) + [SPACE, close])
  }

  lemma GluedEnd(first: bool, close: QChar)
    ensures Glued([], first, close) == EndBlank(first) + [close]
  {
  }

  lemma GluedStep(t: Text, rest: seq<Text>, first: bool, close: QChar)
    ensures Glued([t] + rest, first, close) == Separator([], first) + ([SPACE] + (t + Glued(rest, false, close)))
  {
    JoinFirst(t, rest);
    hide JoinFrom;
    var joined, ends := JoinFrom([t] + rest, LIST_SEP), [SPACE, close];
    var sep := if rest == [] then [] else LIST_SEP;
    assert joined + ends == t + (sep + (JoinFrom(rest, LIST_SEP) + ends));
    assert LIST_SEP == [COMMA] + [SPACE];
  }

  lemma JoinFirst(t: Text, rest: seq<Text>)
    ensures JoinFrom([t] + rest, LIST_SEP) ==
            t + ((if rest == [] then [] else LIST_SEP) + JoinFrom(rest, LIST_SEP))
  {
    assert ([t] + rest)[1..] == rest;
    if rest != [] {
      ThreeParts(t, LIST_SEP, JoinFrom(rest, LIST_SEP));
    }
  }

  lemma ListText(v: Value, lib: Lib)
    requires lib.Valid() && v.List? && Serialize(v, lib).Some?
    ensures Texts(v, 0, lib).Some?
    ensures Serialize(v, lib).value == [LBRACKET] + Glued(Texts(v, 0, lib).value, true, RBRACKET)
  {
    JoinSeparates(Texts(v, 0, lib).value, LIST_SEP);
    hide JoinFrom, Join;
  }

  lemma MapText(v: Value, lib: Lib)
    requires lib.Valid() && v.Map? && Serialize(v, lib).Some?
    ensures var keys := lib.order(v.entries);
            && Enumerates(keys, v.entries) && Pairs(v, keys, lib).Some?
            && Serialize(v, lib).value == [LBRACE] + Glued(Pairs(v, keys, lib).value, true, RBRACE)
  {
    var keys := lib.order(v.entries);
    assert Enumerates(keys, v.entries);
    JoinSeparates(Pairs(v, keys, lib).value, LIST_SEP);
    hide JoinFrom, Join;
  }

  /** The serialized text of a tree is one of the texts of the grammar, and it is read as
      `Reread` says. */
  lemma {:induction false} SerializedIsWritten(v: Value, lib: Lib)
    requires lib.Valid() && Serialize(v, lib).Some?
    ensures Good(NodeOf(v, lib)) && Written(NodeOf(v, lib)) == Serialize(v, lib).value
    ensures NodeValue(NodeOf(v, lib), lib, false) == Reread(v, lib)
    decreases v, 1
  {
    hide Serialize, Texts, Pairs, Glued, WrittenItems, WrittenMembers, GoodItems, GoodMembers;
    match v
    case List(items) =>
      ListText(v, lib);
      ItemsWritten(v, 0, lib);
    case Map(entries) =>
      MapText(v, lib);
      MembersWritten(v, lib.order(entries), true, lib);
      RereadAllKeys(v, lib.order(entries), lib);
    case _ => LeafIsWritten(v, lib);
  }

  lemma RereadAllKeys(v: Value, keys: seq<Text>, lib: Lib)
    requires v.Map? && forall k :: k in keys <==> k in v.entries
    ensures Reread(v, lib) == Map(RereadKeys(v, keys, lib))
  {
    assert RereadKeys(v, keys, lib) == Reread(v, lib).entries;
  }

  lemma LeafIsWritten(v: Value, lib: Lib)
    requires lib.Valid() && Serialize(v, lib).Some? && !v.List? && !v.Map?
    ensures Good(NodeOf(v, lib)) && Written(NodeOf(v, lib)) == Serialize(v, lib).value
    ensures NodeValue(NodeOf(v, lib), lib, false) == Reread(v, lib)
  {
    hide ReadNumber, DecimalInt;
    match v
    case Num(n) => IntegerReads(n, lib);
    case Dbl(d) => DoubleReads(d, lib);
    case Str(s) => QuotedIsSanitized(s);
    case _ =>
  }

  function RereadFrom(v: Value, k: nat, lib: Lib): seq<Value>
    requires v.List? && k <= |v.items|
  {
    Reread(v, lib).items[k..]
  }

  lemma TextsStep(v: Value, k: nat, lib: Lib)
    requires lib.Valid() && v.List? && k < |v.items| && Texts(v, k, lib).Some?
    ensures Serialize(v.items[k], lib).Some? && Texts(v, k + 1, lib).Some?
    ensures Texts(v, k, lib).value == [Serialize(v.items[k], lib).value] + Texts(v, k + 1, lib).value
    ensures RereadFrom(v, k, lib) == [Reread(v.items[k], lib)] + RereadFrom(v, k + 1, lib)
  {
  }

  lemma TextsEnd(v: Value, lib: Lib)
    requires lib.Valid() && v.List?
    ensures Texts(v, |v.items|, lib) == Some([]) && RereadFrom(v, |v.items|, lib) == []
  {
  }

  lemma {:induction false} ItemsWritten(v: Value, k: nat, lib: Lib)
    requires lib.Valid() && v.List? && k <= |v.items| && Texts(v, k, lib).Some?
    ensures GoodItems(ItemsOf(v, k, lib))
    ensures WrittenItems(ItemsOf(v, k, lib), k == 0) == Glued(Texts(v, k, lib).value, k == 0, RBRACKET)
    ensures ItemsValue(ItemsOf(v, k, lib), lib, false) == RereadFrom(v, k, lib)
    decreases v, 0, |v.items| - k
  {
    hide Serialize, Texts, Written, Good, NodeValue, Reread, RereadFrom, Glued, Separator;
    if k == |v.items| {
      TextsEnd(v, lib);
      GluedEnd(k == 0, RBRACKET);
    } else {
      TextsStep(v, k, lib);
      SerializedIsWritten(v.items[k], lib);
      ItemsWritten(v, k + 1, lib);
      GluedStep(Serialize(v.items[k], lib).value, Texts(v, k + 1, lib).value, k == 0, RBRACKET);
    }
  }

  function RereadKeys(v: Value, keys: seq<Text>, lib: Lib): map<Text, Value>
    requires v.Map? && forall k :: k in keys ==> k in v.entries
  {
    map k | k in keys :: Reread(v.entries[k], lib)
  }

  lemma PairsStep(v: Value, keys: seq<Text>, lib: Lib)
    requires lib.Valid() && v.Map? && (forall k :: k in keys ==> k in v.entries)
    requires keys != [] && Pairs(v, keys, lib).Some?
    ensures Serialize(v.entries[keys[0]], lib).Some? && Pairs(v, keys[1..], lib).Some?
    ensures Pairs(v, keys, lib).value ==
            [Sanitize(keys[0]) + KEY_SEP + Serialize(v.entries[keys[0]], lib).value] + Pairs(v, keys[1..], lib).value
  {
  }

  lemma RereadStep(v: Value, keys: seq<Text>, lib: Lib)
    requires v.Map? && (forall k :: k in keys ==> k in v.entries) && keys != []
    ensures RereadKeys(v, keys, lib) == map[keys[0] := Reread(v.entries[keys[0]], lib)] + RereadKeys(v, keys[1..], lib)
  {
    hide Reread;
  }

  lemma PairNamed(name: Text, text: Text, more: Text)
    ensures Named(name, [SPACE], [SPACE], text + more) == name + KEY_SEP + text + more
  {
    assert KEY_SEP == [SPACE] + ([COLON] + [SPACE]);
    ThreeParts(name, KEY_SEP, text);
    ThreeParts(name, KEY_SEP + text, more);
    ThreeParts(KEY_SEP, text, more);
    assert KEY_SEP + (text + more) == [SPACE] + ([COLON] + ([SPACE] + (text + more)));
  }

  lemma {:induction false} MembersWritten(v: Value, keys: seq<Text>, first: bool, lib: Lib)
    requires lib.Valid() && v.Map? && (forall k :: k in keys ==> k in v.entries) && Pairs(v, keys, lib).Some?
    ensures GoodMembers(MembersOf(v, keys, first, lib))
    ensures WrittenMembers(MembersOf(v, keys, first, lib), first) == Glued(Pairs(v, keys, lib).value, first, RBRACE)
    ensures MembersValue(MembersOf(v, keys, first, lib), lib, false) == RereadKeys(v, keys, lib)
    decreases v, 0, |keys|
  {
    hide Serialize, Pairs, Written, Good, NodeValue, Reread, RereadKeys, Glued, Separator, Named, Quoted,
      Sanitize, PiecesValue, GoodPieces;
    if keys == [] {
      PairsEnd(v, lib);
      GluedEnd(first, RBRACE);
    } else {
      var key := keys[0];
      PairsStep(v, keys, lib);
      RereadStep(v, keys, lib);
      var text := Serialize(v.entries[key], lib).value;
      SerializedIsWritten(v.entries[key], lib);
      QuotedIsSanitized(key);
      MembersWritten(v, keys[1..], false, lib);
      GluedStep(Sanitize(key) + KEY_SEP + text, Pairs(v, keys[1..], lib).value, first, RBRACE);
      PairNamed(Sanitize(key), text, Glued(Pairs(v, keys[1..], lib).value, false, RBRACE));
    }
  }

  // ---- which trees have a text ----

  /** Every double in the tree is one that the library prints: no infinity and no NaN. */
  ghost predicate AllPrint(v: Value, lib: Lib) {
    match v
    case Dbl(d) => lib.number(d).Some?
    case List(items) => forall i :: 0 <= i < |items| ==> AllPrint(items[i], lib)
    case Map(entries) => forall k :: k in entries ==> AllPrint(entries[k], lib)
    case _ => true
  }

  /** A tree serializes if and only if every double in it prints. */
  lemma {:induction false} SerializesIff(v: Value, lib: Lib)
    requires lib.Valid()
    ensures Serialize(v, lib).Some? <==> AllPrint(v, lib)
    decreases v, 1
  {
    match v
    case List(items) => TextsIff(v, 0, lib);
    case Map(entries) =>
      assert Enumerates(lib.order(entries), entries);
      PairsIff(v, lib.order(entries), lib);
    case _ =>
  }

  lemma {:induction false} TextsIff(v: Value, k: nat, lib: Lib)
    requires lib.Valid() && v.List? && k <= |v.items|
    ensures Texts(v, k, lib).Some? <==> forall i :: k <= i < |v.items| ==> AllPrint(v.items[i], lib)
    decreases v, 0, |v.items| - k
  {
    hide Serialize, AllPrint;
    if k < |v.items| {
      SerializesIff(v.items[k], lib);
      TextsIff(v, k + 1, lib);
    }
  }

  lemma {:induction false} PairsIff(v: Value, keys: seq<Text>, lib: Lib)
    requires lib.Valid() && v.Map? && forall k :: k in keys ==> k in v.entries
    ensures Pairs(v, keys, lib).Some? <==> forall k :: k in keys ==> AllPrint(v.entries[k], lib)
    decreases v, 0, |keys|
  {
    hide Serialize, AllPrint;
    if keys != [] {
      SerializesIff(v.entries[keys[0]], lib);
      PairsIff(v, keys[1..], lib);
      assert keys == [keys[0]] + keys[1..];
    }
  }

  lemma PairsEnd(v: Value, lib: Lib)
    requires lib.Valid() && v.Map?
    ensures Pairs(v, [], lib) == Some([]) && RereadKeys(v, [], lib) == map[]
  {
  }

  /** Every tree that serializes parses back, whatever follows its text; only a number must
      be told apart from it. */
  lemma SerializeThenParse(v: Value, lib: Lib, after: Text)
    requires lib.Valid() && Serialize(v, lib).Some?
    requires v.Num? || v.Dbl? ==> after == [] || !IsNumberChar(after[0])
    ensures Reader(Serialize(v, lib).value + after, lib).ParseValue(0) == Ok(Reread(v, lib), |Serialize(v, lib).value|)
  {
    hide Written, NodeValue, Good, Reread, Serialize, Reader.ParseValue;
    var t := Serialize(v, lib).value;
    assert (t + after)[0..0 + |t|] == t;
    SerializedIsWritten(v, lib);
    NodeReads(Reader(t + after, lib), NodeOf(v, lib), 0);
  }

  /** The tree comes back unchanged exactly when no double in it prints without a point. */
  lemma {:induction false} RereadIsIdentity(v: Value, lib: Lib)
    requires lib.Valid() && Serialize(v, lib).Some?
    ensures Reread(v, lib) == v <==> PointedDoubles(v, lib)
    decreases v
  {
    match v
    case List(items) =>
      forall i | 0 <= i < |items| ensures Reread(items[i], lib) == items[i] <==> PointedDoubles(items[i], lib) {
        TextsSerialize(v, 0, i, lib);
        RereadIsIdentity(items[i], lib);
      }
      if PointedDoubles(v, lib) {
        assert Reread(v, lib).items == items;
      } else {
        var i :| 0 <= i < |items| && !PointedDoubles(items[i], lib);
        assert Reread(v, lib).items[i] != items[i];
      }
    case Map(entries) =>
      forall k | k in entries ensures Reread(entries[k], lib) == entries[k] <==> PointedDoubles(entries[k], lib) {
        assert Enumerates(lib.order(entries), entries);
        PairsSerialize(v, lib.order(entries), k, lib);
        RereadIsIdentity(entries[k], lib);
      }
      if PointedDoubles(v, lib) {
        assert Reread(v, lib).entries == entries;
      } else {
        var k :| k in entries && !PointedDoubles(entries[k], lib);
        assert Reread(v, lib).entries[k] != entries[k];
      }
    case _ =>
  }

  lemma {:induction false} TextsSerialize(v: Value, k: nat, i: nat, lib: Lib)
    requires lib.Valid() && v.List? && k <= i < |v.items| && Texts(v, k, lib).Some?
    ensures Serialize(v.items[i], lib).Some?
    decreases i - k
  {
    if k < i {
      TextsSerialize(v, k + 1, i, lib);
    }
  }

  lemma {:induction false} PairsSerialize(v: Value, keys: seq<Text>, key: Text, lib: Lib)
    requires lib.Valid() && v.Map? && (forall k :: k in keys ==> k in v.entries)
    requires key in keys && Pairs(v, keys, lib).Some?
    ensures Serialize(v.entries[key], lib).Some?
    decreases |keys|
  {
    if keys[0] != key {
      PairsSerialize(v, keys[1..], key, lib);
    }
  }
}
