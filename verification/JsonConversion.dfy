/** What becomes of a text that is turned into UTF-8 bytes and read again. */
module JsonConversion {
  import opened Common
  import opened JsonText

  /** The bytes are read as UTF-8, as QString::fromUtf8() does, or each as a character, as
      QString(QByteArray) of Qt 4 does. */
  datatype Reading = Utf8 | Latin1

  predicate StartsPair(t: Text) {
    |t| > 1 && High(t[0]) && Low(t[1])
  }

  function UnitBytes(c: QChar): Text {
    if c < 0x80 then [c]
    else if c < 0x800 then [0xC0 + c / 0x40, 0x80 + c % 0x40]
    else [0xE0 + c / 0x1000, 0x80 + c / 0x40 % 0x40, 0x80 + c % 0x40]
  }

  function PairBytes(high: QChar, low: QChar): Text
    requires High(high) && Low(low)
  {
    var code := 0x1_0000 + (high - 0xD800) * 0x400 + (low - 0xDC00);
    [0xF0 + code / 0x4_0000, 0x80 + code / 0x1000 % 0x40, 0x80 + code / 0x40 % 0x40, 0x80 + code % 0x40]
  }

  /** A single unit, a lone surrogate replaced. */
  function UnitImage(c: QChar, lone: QChar, how: Reading): Text {
    var kept := if High(c) || Low(c) then lone else c;
    if how.Utf8? then [kept] else UnitBytes(kept)
  }

  function PairImage(high: QChar, low: QChar, how: Reading): Text
    requires High(high) && Low(low)
  {
    if how.Utf8? then [high, low] else PairBytes(high, low)
  }

  function Convert(t: Text, lone: QChar, how: Reading): Text {
    if t == [] then []
    else if StartsPair(t) then PairImage(t[0], t[1], how) + Convert(t[2..], lone, how)
    else UnitImage(t[0], lone, how) + Convert(t[1..], lone, how)
  }

  // What the replacement for a lone surrogate may be.
  predicate Replaces(lone: QChar) {
    !High(lone) && !Low(lone) && lone >= SPACE && lone != QUOTE && lone != BACKSLASH
  }

  // ---- conversion of parts ----

  lemma DropConcat(a: Text, b: Text, n: nat)
    requires n <= |a|
    ensures (a + b)[n..] == a[n..] + b && (a + b)[..n] == a[..n]
  {
  }

  lemma ConvertStep(t: Text, lone: QChar, how: Reading)
    requires t != []
    ensures StartsPair(t) ==> Convert(t, lone, how) == PairImage(t[0], t[1], how) + Convert(t[2..], lone, how)
    ensures !StartsPair(t) ==> Convert(t, lone, how) == UnitImage(t[0], lone, how) + Convert(t[1..], lone, how)
  {
    hide PairImage, UnitImage;
  }

  lemma NothingConverted(lone: QChar, how: Reading)
    ensures Convert([], lone, how) == []
  {
  }

  lemma {:induction false} ConvertConcat(a: Text, b: Text, lone: QChar, how: Reading)
    requires a == [] || b == [] || !High(a[|a| - 1]) || !Low(b[0])
    ensures Convert(a + b, lone, how) == Convert(a, lone, how) + Convert(b, lone, how)
    decreases |a|
  {
    hide Convert, PairImage, UnitImage;
    if a == [] {
      NothingConverted(lone, how);
      assert a + b == b && [] + Convert(b, lone, how) == Convert(b, lone, how);
    } else {
      var n := if StartsPair(a) then 2 else 1;
      assert StartsPair(a + b) == StartsPair(a) && (a + b)[0] == a[0] && (n == 2 ==> (a + b)[1] == a[1]);
      ConvertConcat(a[n..], b, lone, how);
      DropConcat(a, b, n);
      ConvertStep(a, lone, how);
      ConvertStep(a + b, lone, how);
      var first := if n == 2 then PairImage(a[0], a[1], how) else UnitImage(a[0], lone, how);
      ThreeParts(first, Convert(a[n..], lone, how), Convert(b, lone, how));
    }
  }

  predicate Ascii(t: Text) {
    forall i :: 0 <= i < |t| ==> t[i] < 0x80
  }

  lemma {:induction false} ConvertAscii(t: Text, lone: QChar, how: Reading)
    requires Ascii(t)
    ensures Convert(t, lone, how) == t
  {
    if t != [] {
      ConvertAscii(t[1..], lone, how);
      assert t == [t[0]] + t[1..];
    }
  }

  lemma ConvertAfterAscii(a: Text, b: Text, lone: QChar, how: Reading)
    requires Ascii(a)
    ensures Convert(a + b, lone, how) == a + Convert(b, lone, how)
  {
    ConvertAscii(a, lone, how);
    ConvertConcat(a, b, lone, how);
  }

  lemma PairImageChars(high: QChar, low: QChar, how: Reading, d: QChar)
    requires High(high) && Low(low) && d in PairImage(high, low, how)
    ensures d >= 0x80
  {
  }

  lemma {:induction false} ConvertKeepsNul(t: Text, lone: QChar, how: Reading)
    requires Replaces(lone)
    ensures 0 in Convert(t, lone, how) <==> 0 in t
    decreases |t|
  {
    if t != [] {
      hide PairImage, UnitImage, Convert;
      var n := if StartsPair(t) then 2 else 1;
      ConvertKeepsNul(t[n..], lone, how);
      ConvertStep(t, lone, how);
      assert t == t[..n] + t[n..];
      FirstKeepsNul(t, lone, how);
    } else {
      NothingConverted(lone, how);
    }
  }

  lemma FirstKeepsNul(t: Text, lone: QChar, how: Reading)
    requires t != [] && Replaces(lone)
    ensures StartsPair(t) ==> 0 !in PairImage(t[0], t[1], how) && 0 !in t[..2]
    ensures !StartsPair(t) ==> (0 in UnitImage(t[0], lone, how) <==> 0 in t[..1])
  {
    if StartsPair(t) && 0 in PairImage(t[0], t[1], how) {
      PairImageChars(t[0], t[1], how, 0);
    }
    if t[0] == 0 {
      assert UnitImage(t[0], lone, how) == [0];
    }
  }

  // ---- which texts survive ----

  /** Every surrogate stands in a pair. */
  predicate Paired(t: Text) {
    if t == [] then true
    else if StartsPair(t) then Paired(t[2..])
    else !High(t[0]) && !Low(t[0]) && Paired(t[1..])
  }

  /** Read as UTF-8 a text survives without lone surrogates; byte by byte, if it is ASCII. */
  predicate Survives(t: Text, how: Reading) {
    if how.Utf8? then Paired(t) else Ascii(t)
  }

  lemma {:induction false} MendKeeps(t: Text, lone: QChar)
    requires Replaces(lone)
    ensures Convert(t, lone, Utf8) == t <==> Paired(t)
    ensures Paired(Convert(t, lone, Utf8))
    decreases |t|
  {
    if t == [] {
    } else if StartsPair(t) {
      MendKeeps(t[2..], lone);
      var r := Convert(t, lone, Utf8);
      assert r[2..] == Convert(t[2..], lone, Utf8) && t == [t[0], t[1]] + t[2..];
    } else {
      MendKeeps(t[1..], lone);
      var r := Convert(t, lone, Utf8);
      assert r[1..] == Convert(t[1..], lone, Utf8) && t == [t[0]] + t[1..];
    }
  }

  predicate AllBytes(t: Text) {
    forall i :: 0 <= i < |t| ==> t[i] < 0x100
  }

  lemma {:induction false} BytesAreBytes(t: Text, lone: QChar)
    ensures |Convert(t, lone, Latin1)| >= |t| && AllBytes(Convert(t, lone, Latin1))
    decreases |t|
  {
    if t != [] {
      BytesAreBytes(t[if StartsPair(t) then 2 else 1..], lone);
    }
  }

  // A character that is a byte, but not ASCII, takes two bytes that are not ASCII either.
  lemma {:induction false} BytesGrow(t: Text, lone: QChar)
    requires AllBytes(t) && !Ascii(t)
    ensures |Convert(t, lone, Latin1)| > |t| && !Ascii(Convert(t, lone, Latin1))
    decreases |t|
  {
    var r := Convert(t, lone, Latin1);
    assert t == [t[0]] + t[1..];
    if t[0] < 0x80 {
      BytesGrow(t[1..], lone);
      var rest := Convert(t[1..], lone, Latin1);
      var i :| 0 <= i < |rest| && rest[i] >= 0x80;
      assert r[i + 1] == rest[i];
    } else {
      BytesAreBytes(t[1..], lone);
      assert r[0] >= 0x80;
    }
  }

  /** Exactly the surviving texts are left alone. */
  lemma ConvertKeeps(t: Text, lone: QChar, how: Reading)
    requires Replaces(lone)
    ensures Convert(t, lone, how) == t <==> Survives(t, how)
  {
    if how.Utf8? {
      MendKeeps(t, lone);
    } else if Ascii(t) {
      ConvertAscii(t, lone, how);
    } else if Convert(t, lone, how) == t {
      BytesAreBytes(t, lone);
      BytesGrow(t, lone);
    }
  }

  // ---- the bytes are UTF-8 ----

  predicate Tail(c: QChar) {
    0x80 <= c < 0xC0
  }

  /** The text that some bytes encode by section 3 of RFC 3629, in UTF-16. */
  function Decode(b: Text): Option<Text> {
    if b == [] then Some([])
    else if b[0] < 0x80 then Before([b[0]], Decode(b[1..]))
    else if 0xC2 <= b[0] < 0xE0 && |b| >= 2 && Tail(b[1]) then
      Before([(b[0] - 0xC0) * 0x40 + (b[1] - 0x80)], Decode(b[2..]))
    else if 0xE0 <= b[0] < 0xF0 && |b| >= 3 && Tail(b[1]) && Tail(b[2]) then
      Before([(b[0] - 0xE0) * 0x1000 + (b[1] - 0x80) * 0x40 + (b[2] - 0x80)], Decode(b[3..]))
    else if 0xF0 <= b[0] < 0xF5 && |b| >= 4 && Tail(b[1]) && Tail(b[2]) && Tail(b[3]) then
      var code := FourBits(b[0] - 0xF0, b[1] - 0x80, b[2] - 0x80, b[3] - 0x80);
      if 0x1_0000 <= code < 0x11_0000 then
        Before([0xD800 + (code - 0x1_0000) / 0x400, 0xDC00 + (code - 0x1_0000) % 0x400], Decode(b[4..]))
      else None
    else None
  }

  function FourBits(a: int, b: int, c: int, d: int): int {
    a * 0x4_0000 + b * 0x1000 + c * 0x40 + d
  }

  function Before(t: Text, rest: Option<Text>): Option<Text> {
    match rest case Some(r) => Some(t + r) case None => None
  }

  lemma UnitDecodes(c: QChar, rest: Text)
    ensures Decode(UnitBytes(c) + rest) == Before([c], Decode(rest))
  {
    var b := UnitBytes(c) + rest;
    hide Before;
    if c < 0x80 {
      assert b[1..] == rest;
    } else if c < 0x800 {
      assert b[2..] == rest;
    } else {
      assert b[3..] == rest;
    }
  }

  lemma PairCode(high: QChar, low: QChar)
    requires High(high) && Low(low)
    ensures var b := PairBytes(high, low);
            && |b| == 4 && 0xF0 <= b[0] < 0xF5 && Tail(b[1]) && Tail(b[2]) && Tail(b[3])
            && FourBits(b[0] - 0xF0, b[1] - 0x80, b[2] - 0x80, b[3] - 0x80) ==
               0x1_0000 + ((high - 0xD800) as int) * 0x400 + (low - 0xDC00)
  {
    var code: int := 0x1_0000 + ((high - 0xD800) as int) * 0x400 + (low - 0xDC00);
    SplitBits(code);
    SplitBits(code / 0x40);
    SplitBits(code / 0x1000);
    hide FourBits;
    FourBitsIs(code / 0x4_0000, code / 0x1000 % 0x40, code / 0x40 % 0x40, code % 0x40);
  }

  lemma FourBitsIs(a: int, b: int, c: int, d: int)
    ensures FourBits(a, b, c, d) == ((a * 0x40 + b) * 0x40 + c) * 0x40 + d
  {
  }

  lemma SplitBits(n: nat)
    ensures n == n / 0x40 * 0x40 + n % 0x40 && 0 <= n % 0x40 < 0x40
    ensures n / 0x40 / 0x40 == n / 0x1000 && n / 0x1000 / 0x40 == n / 0x4_0000
    ensures n < 0x11_0000 ==> n / 0x4_0000 < 5
  {
  }

  lemma CodeSplits(high: QChar, low: QChar)
    requires High(high) && Low(low)
    ensures var code := ((high - 0xD800) as int) * 0x400 + (low - 0xDC00);
            0 <= code < 0x10_0000 && 0xD800 + code / 0x400 == high && 0xDC00 + code % 0x400 == low
  {
  }

  lemma PairDecodes(high: QChar, low: QChar, rest: Text)
    requires High(high) && Low(low)
    ensures Decode(PairBytes(high, low) + rest) == Before([high, low], Decode(rest))
  {
    PairCode(high, low);
    CodeSplits(high, low);
    hide PairBytes, Before, Tail;
    var b := PairBytes(high, low) + rest;
    assert b[4..] == rest;
  }

  /** The bytes that stand for a text, read as UTF-8, are the text with each lone surrogate
      replaced, which is what the other reading gives. */
  lemma {:induction false} DecodesToMended(t: Text, lone: QChar)
    requires Replaces(lone)
    ensures Decode(Convert(t, lone, Latin1)) == Some(Convert(t, lone, Utf8))
    decreases |t|
  {
    hide Decode, UnitBytes, PairBytes;
    if t == [] {
      NothingDecoded();
    } else if StartsPair(t) {
      DecodesToMended(t[2..], lone);
      PairDecodes(t[0], t[1], Convert(t[2..], lone, Latin1));
    } else {
      DecodesToMended(t[1..], lone);
      UnitDecodes(if High(t[0]) || Low(t[0]) then lone else t[0], Convert(t[1..], lone, Latin1));
    }
  }

  lemma NothingDecoded()
    ensures Decode([]) == Some([])
  {
  }

  // ---- sets of texts that the conversion maps onto themselves ----

  /** The image of a set of texts. */
  function Images(ts: set<Text>, lone: QChar, how: Reading): set<Text> {
    set t | t in ts :: Convert(t, lone, how)
  }

  lemma ImageIn(ts: set<Text>, t: Text, lone: QChar, how: Reading)
    requires t in ts
    ensures Convert(t, lone, how) in Images(ts, lone, how)
  {
  }

  lemma SourceOf(ts: set<Text>, t: Text, lone: QChar, how: Reading) returns (s: Text)
    requires t in Images(ts, lone, how)
    ensures s in ts && Convert(s, lone, how) == t
  {
    s :| s in ts && Convert(s, lone, how) == t;
  }

  lemma {:induction false} LongestBound(ts: set<Text>) returns (bound: nat)
    ensures forall t :: t in ts ==> |t| <= bound
    decreases ts
  {
    if ts == {} {
      bound := 0;
    } else {
      var t :| t in ts;
      bound := LongestBound(ts - {t});
      if bound < |t| {
        bound := |t|;
      }
      forall s | s in ts ensures |s| <= bound {
        assert s == t || s in ts - {t};
      }
    }
  }

  // A text that is not ASCII would have ever longer images in the set.
  lemma {:induction false} NoneGrows(ts: set<Text>, t: Text, bound: nat, lone: QChar)
    requires Images(ts, lone, Latin1) == ts && t in ts && forall s :: s in ts ==> |s| <= bound
    ensures Ascii(t)
    decreases bound - |t|
  {
    hide Convert, Images, Ascii, AllBytes;
    if !Ascii(t) {
      var s := SourceOf(ts, t, lone, Latin1);
      BytesAreBytes(s, lone);
      BytesGrow(t, lone);
      ImageIn(ts, t, lone, Latin1);
      NoneGrows(ts, Convert(t, lone, Latin1), bound, lone);
    }
  }

  /** All texts of a set that is its own image survive. */
  lemma OwnImageSurvives(ts: set<Text>, t: Text, lone: QChar, how: Reading)
    requires Replaces(lone) && Images(ts, lone, how) == ts && t in ts
    ensures Survives(t, how)
  {
    hide Convert, Images, Ascii, Paired;
    if how.Utf8? {
      var s := SourceOf(ts, t, lone, how);
      MendKeeps(s, lone);
    } else {
      var bound := LongestBound(ts);
      NoneGrows(ts, t, bound, lone);
    }
  }
}
