/** The parser looks no further than the end of what it parses: a text that was parsed is
    parsed alike with anything after it, and a text that is cut short is not parsed. */
module JsonLocal {
  import opened JsonText
  import opened JsonSerializer
  import opened JsonParser
  import opened JsonSyntax

  lemma {:induction false} SkipLocal(u: Text, t: Text, lib: Lib, i: nat)
    requires u <= t && i <= |u| && Reader(u, lib).SkipSpace(i) < |u|
    ensures Reader(t, lib).SkipSpace(i) == Reader(u, lib).SkipSpace(i)
    decreases |u| - i
  {
    assert u[i] == t[i];
    if IsSpace(u[i]) {
      SkipLocal(u, t, lib, i + 1);
    }
  }

  lemma TokenLocal(u: Text, t: Text, lib: Lib, i: nat)
    requires u <= t && i <= |u| && Reader(u, lib).NextToken(i).0 != NoToken
    ensures Reader(t, lib).NextToken(i) == Reader(u, lib).NextToken(i)
    ensures Reader(t, lib).SkipSpace(i) == Reader(u, lib).SkipSpace(i) < |u|
  {
    SkipLocal(u, t, lib, i);
    var p := Reader(u, lib).SkipSpace(i);
    hide Reader.SkipSpace, PunctuationToken;
    assert u[p] == t[p];
    KeywordLocal(u, t, lib, p, TRUE_TEXT);
    KeywordLocal(u, t, lib, p, FALSE_TEXT);
    KeywordLocal(u, t, lib, p, NULL_TEXT);
    KeywordFirst(u, t, lib, p);
  }

  lemma KeywordLocal(u: Text, t: Text, lib: Lib, p: nat, word: Text)
    requires u <= t
    ensures Reader(u, lib).Keyword(p, word) ==> Reader(t, lib).Keyword(p, word)
  {
    if p + |word| <= |u| {
      assert u[p..p + |word|] == t[p..p + |word|];
    }
  }

  // No two keywords start alike.
  lemma KeywordFirst(u: Text, t: Text, lib: Lib, p: nat)
    requires u <= t
    ensures Reader(t, lib).Keyword(p, TRUE_TEXT) ==> t[p] == 't' as int
    ensures Reader(t, lib).Keyword(p, FALSE_TEXT) ==> t[p] == 'f' as int
    ensures Reader(t, lib).Keyword(p, NULL_TEXT) ==> t[p] == 'n' as int
  {
    if Reader(t, lib).Keyword(p, TRUE_TEXT) {
      assert t[p] == t[p..p + 4][0];
    }
    if Reader(t, lib).Keyword(p, FALSE_TEXT) {
      assert t[p] == t[p..p + 5][0];
    }
    if Reader(t, lib).Keyword(p, NULL_TEXT) {
      assert t[p] == t[p..p + 4][0];
    }
  }

  lemma {:induction false} BodyLocal(u: Text, t: Text, lib: Lib, i: nat, s: Text)
    requires u <= t && i <= |u| && Reader(u, lib).StringBody(i, s).Ok?
    ensures Reader(t, lib).StringBody(i, s) == Reader(u, lib).StringBody(i, s)
    decreases |u| - i
  {
    assert u[i] == t[i];
    if u[i] != QUOTE {
      if u[i] != BACKSLASH {
        BodyLocal(u, t, lib, i + 1, s + [u[i]]);
      } else {
        assert u[i + 1] == t[i + 1];
        if Unescape(u[i + 1]).Some? {
          BodyLocal(u, t, lib, i + 2, s + [Unescape(u[i + 1]).value]);
        } else if u[i + 1] != 'u' as int {
          BodyLocal(u, t, lib, i + 2, s);
        } else {
          assert u[i + 2..i + 6] == t[i + 2..i + 6];
          BodyLocal(u, t, lib, i + 6, s + [lib.hex(u[i + 2..i + 6])]);
        }
      }
    }
  }

  lemma {:induction false} NumberEndLocal(u: Text, t: Text, lib: Lib, i: nat)
    requires u <= t && i <= |u| && Reader(u, lib).NumberEnd(i) < |u|
    ensures Reader(t, lib).NumberEnd(i) == Reader(u, lib).NumberEnd(i)
    decreases |u| - i
  {
    assert u[i] == t[i];
    if IsNumberChar(u[i]) {
      NumberEndLocal(u, t, lib, i + 1);
    }
  }

  lemma NumberLocal(u: Text, t: Text, lib: Lib, i: nat)
    requires u <= t && i <= |u| && Reader(u, lib).SkipSpace(i) < |u| && Reader(u, lib).ParseNumber(i).next < |u|
    ensures Reader(t, lib).ParseNumber(i) == Reader(u, lib).ParseNumber(i)
  {
    SkipLocal(u, t, lib, i);
    var p := Reader(u, lib).SkipSpace(i);
    NumberEndLocal(u, t, lib, p);
    var e := Reader(u, lib).NumberEnd(p);
    assert u[p..e] == t[p..e];
  }

  lemma StringLocal(u: Text, t: Text, lib: Lib, i: nat)
    requires u <= t && i <= |u| && Reader(u, lib).SkipSpace(i) < |u| && Reader(u, lib).ParseString(i).Ok?
    ensures Reader(t, lib).SkipSpace(i) < |t|
    ensures Reader(t, lib).ParseString(i) == Reader(u, lib).ParseString(i)
  {
    SkipLocal(u, t, lib, i);
    BodyLocal(u, t, lib, Reader(u, lib).SkipSpace(i) + 1, []);
  }

  /** A value that is parsed is parsed alike whatever more text follows, but for a number that
      ends where the text does. */
  lemma {:induction false} ValueLocal(u: Text, t: Text, lib: Lib, i: nat)
    requires u <= t && i <= |u| && Reader(u, lib).ParseValue(i).Ok?
    requires Reader(u, lib).NextToken(i).0 == NumberToken ==> Reader(u, lib).ParseValue(i).next < |u|
    ensures Reader(t, lib).ParseValue(i) == Reader(u, lib).ParseValue(i)
    decreases |u| - i, 1
  {
    TokenLocal(u, t, lib, i);
    hide Reader.NextToken, Reader.SkipSpace, Reader.StringBody, Reader.ParseString, Reader.ParseNumber;
    hide Reader.ParseItems, Reader.ParseMembers;
    var (token, next) := Reader(u, lib).NextToken(i);
    match token
    case StringToken => StringLocal(u, t, lib, i);
    case NumberToken => NumberLocal(u, t, lib, i);
    case CurlyOpen => MembersLocal(u, t, lib, next, map[]);
    case SquaredOpen => ItemsLocal(u, t, lib, next, []);
    case _ =>
  }

  lemma {:induction false} ItemsLocal(u: Text, t: Text, lib: Lib, i: nat, items: seq<Value>)
    requires u <= t && i <= |u| && Reader(u, lib).ParseItems(i, items).Ok?
    ensures Reader(t, lib).ParseItems(i, items) == Reader(u, lib).ParseItems(i, items)
    decreases |u| - i, 2
  {
    hide Reader.NextToken, Reader.SkipSpace, Reader.ParseValue;
    TokenLocal(u, t, lib, i);
    var (token, next) := Reader(u, lib).NextToken(i);
    if token == Comma {
      ItemsLocal(u, t, lib, next, items);
    } else if token != SquaredClose {
      var v := Reader(u, lib).ParseValue(i);
      ValueLocal(u, t, lib, i);
      ItemsLocal(u, t, lib, v.next, items + [v.value]);
    }
  }

  lemma {:induction false} MembersLocal(u: Text, t: Text, lib: Lib, i: nat, entries: map<Text, Value>)
    requires u <= t && i <= |u| && Reader(u, lib).ParseMembers(i, entries).Ok?
    ensures Reader(t, lib).ParseMembers(i, entries) == Reader(u, lib).ParseMembers(i, entries)
    decreases |u| - i, 2
  {
    hide Reader.NextToken, Reader.SkipSpace, Reader.ParseValue, Reader.ParseString;
    TokenLocal(u, t, lib, i);
    var (token, next) := Reader(u, lib).NextToken(i);
    if token == Comma {
      MembersLocal(u, t, lib, next, entries);
    } else if token != CurlyClose {
      StringLocal(u, t, lib, i);
      var name := Reader(u, lib).ParseString(i);
      TokenLocal(u, t, lib, name.next);
      var k := Reader(u, lib).NextToken(name.next).1;
      var v := Reader(u, lib).ParseValue(k);
      ValueLocal(u, t, lib, k);
      MembersLocal(u, t, lib, v.next, entries[name.value := v.value]);
    }
  }

  lemma WrittenStarts(n: Node)
    requires Good(n) && !n.NumberNode?
    ensures Written(n) != [] && !IsDigit(Written(n)[0]) && Written(n)[0] != MINUS && !IsSpace(Written(n)[0])
  {
    hide WrittenItems, WrittenMembers, PiecesText;
  }

  /** The text of a tree other than a number, cut anywhere before its end, does not parse. */
  lemma CutFails(u: Text, n: Node, lib: Lib)
    requires lib.Valid() && Good(n) && !n.NumberNode? && u < Written(n)
    ensures Reader(u, lib).ParseValue(0).Fail?
  {
    var t := Written(n);
    WrittenStarts(n);
    assert At(t, 0, t);
    NodeReads(Reader(t, lib), n, 0);
    if Reader(u, lib).ParseValue(0).Ok? {
      NoNumberFirst(u, t, lib);
      ValueLocal(u, t, lib, 0);
    }
  }

  lemma NoNumberFirst(u: Text, t: Text, lib: Lib)
    requires u <= t && t != [] && !IsDigit(t[0]) && t[0] != MINUS && !IsSpace(t[0])
    ensures Reader(u, lib).NextToken(0).0 != NumberToken
  {
    assert u != [] ==> u[0] == t[0];
  }
}
