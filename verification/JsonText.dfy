/** UTF-16 text, the characters the JSON code names, and decimal numerals. */
module JsonText {
  import opened Common

  // A QChar is one UTF-16 code unit; a QString is a sequence of them.
  type QChar = c: int | 0 <= c < 0x1_0000
  type Text = seq<QChar>

  const QUOTE: QChar := 0x22
  const BACKSLASH: QChar := 0x5C
  const SLASH: QChar := 0x2F
  const SPACE: QChar := 0x20
  const TAB: QChar := 0x09
  const LF: QChar := 0x0A
  const CR: QChar := 0x0D
  const BS: QChar := 0x08
  const FF: QChar := 0x0C
  const COMMA: QChar := 0x2C
  const COLON: QChar := 0x3A
  const LBRACE: QChar := 0x7B
  const RBRACE: QChar := 0x7D
  const LBRACKET: QChar := 0x5B
  const RBRACKET: QChar := 0x5D
  const DOT: QChar := 0x2E
  const MINUS: QChar := 0x2D
  const PLUS: QChar := 0x2B
  const ZERO: QChar := 0x30

  const NULL_TEXT: Text := ['n' as int, 'u' as int, 'l' as int, 'l' as int]
  const TRUE_TEXT: Text := ['t' as int, 'r' as int, 'u' as int, 'e' as int]
  const FALSE_TEXT: Text := ['f' as int, 'a' as int, 'l' as int, 's' as int, 'e' as int]

  predicate IsSpace(c: QChar) {
    c == SPACE || c == TAB || c == LF || c == CR
  }

  predicate IsDigit(c: QChar) {
    ZERO <= c <= ZERO + 9
  }

  // The alphabet of a number lexeme: 0123456789+-.eE
  predicate IsNumberChar(c: QChar) {
    IsDigit(c) || c == PLUS || c == MINUS || c == DOT || c == 'e' as int || c == 'E' as int
  }

  // ---- UTF-16 ----

  predicate High(c: QChar) {
    0xD800 <= c < 0xDC00
  }

  predicate Low(c: QChar) {
    0xDC00 <= c < 0xE000
  }

  // ---- hexadecimal digits ----

  predicate IsHexDigit(c: QChar) {
    IsDigit(c) || 'a' as int <= c <= 'f' as int || 'A' as int <= c <= 'F' as int
  }

  function HexDigit(c: QChar): (n: nat)
    requires IsHexDigit(c)
    ensures n < 16
  {
    if IsDigit(c) then c - ZERO else if c >= 'a' as int then c - 'a' as int + 10 else c - 'A' as int + 10
  }

  predicate FourHexDigits(t: Text) {
    |t| == 4 && forall i :: 0 <= i < 4 ==> IsHexDigit(t[i])
  }

  function HexValue(t: Text): QChar
    requires FourHexDigits(t)
  {
    HexDigit(t[0]) * 0x1000 + HexDigit(t[1]) * 0x100 + HexDigit(t[2]) * 0x10 + HexDigit(t[3])
  }

  /** The digits, with small and capital letters, and their values. */
  const HEX: map<int, int> :=
    map[48 := 0, 49 := 1, 50 := 2, 51 := 3, 52 := 4, 53 := 5, 54 := 6, 55 := 7, 56 := 8, 57 := 9,
        97 := 10, 98 := 11, 99 := 12, 100 := 13, 101 := 14, 102 := 15,
        65 := 10, 66 := 11, 67 := 12, 68 := 13, 69 := 14, 70 := 15]

  lemma HexDigitIs(c: QChar)
    ensures IsHexDigit(c) <==> c in HEX
    ensures IsHexDigit(c) ==> HexDigit(c) == HEX[c]
  {
  }

  /** Four digits are a number in base 16, the first digit the highest. */
  function Base16(t: Text): nat
    requires forall i :: 0 <= i < |t| ==> IsHexDigit(t[i])
  {
    if t == [] then 0 else assert IsHexDigit(t[|t| - 1]); 16 * Base16(t[..|t| - 1]) + HexDigit(t[|t| - 1])
  }

  lemma HexValueIs(t: Text)
    requires FourHexDigits(t)
    ensures HexValue(t) == Base16(t)
  {
    hide HexDigit, IsHexDigit;
    var t3, t2, t1 := t[..3], t[..2], t[..1];
    assert t3[..2] == t2 && t2[..1] == t1 && t1[..0] == [];
    assert Base16(t1) == HexDigit(t[0]);
    assert Base16(t2) == 16 * Base16(t1) + HexDigit(t[1]);
    assert Base16(t3) == 16 * Base16(t2) + HexDigit(t[2]);
    assert t[..|t| - 1] == t3;
  }

  /** `t` stands in `json` at index `i`. */
  ghost predicate At(json: Text, i: nat, t: Text) {
    i + |t| <= |json| && json[i..i + |t|] == t
  }

  lemma AtAppend(json: Text, i: nat, a: Text, b: Text)
    ensures At(json, i, a + b) <==> At(json, i, a) && At(json, i + |a|, b)
    ensures At(json, i, a + b) ==> i + |a| + |b| <= |json|
  {
    if At(json, i, a + b) {
      assert json[i..i + |a|] == (a + b)[..|a|] == a;
      assert json[i + |a|..i + |a| + |b|] == (a + b)[|a|..] == b;
    }
    if At(json, i, a) && At(json, i + |a|, b) {
      assert json[i..i + |a + b|] == json[i..i + |a|] + json[i + |a|..i + |a| + |b|];
    }
  }

  lemma AtIndex(json: Text, i: nat, t: Text, k: nat)
    requires At(json, i, t) && k < |t|
    ensures json[i + k] == t[k]
  {
    assert json[i..i + |t|][k] == t[k];
  }

  // ---- decimal numerals ----

  function Decimal(n: nat): (t: Text)
    ensures |t| > 0
  {
    if n < 10 then [ZERO + n] else Decimal(n / 10) + [ZERO + n % 10]
  }

  function DecimalInt(n: int): Text {
    if n < 0 then [MINUS] + Decimal(-n) else Decimal(n)
  }

  predicate AllDigits(t: Text) {
    t != [] && forall k :: 0 <= k < |t| ==> IsDigit(t[k])
  }

  function DigitsValue(t: Text): (n: nat)
    requires forall k :: 0 <= k < |t| ==> IsDigit(t[k])
  {
    if t == [] then 0 else assert IsDigit(t[|t| - 1]); 10 * DigitsValue(t[..|t| - 1]) + (t[|t| - 1] - ZERO)
  }

  /** QString::toInt and its siblings on a lexeme of number characters: an optional
      sign and digits, within the range of the integer type asked for. */
  function ToInteger(t: Text, lo: int, hi: int): Option<int> {
    if AllDigits(t) then InRange(DigitsValue(t), lo, hi)
    else if t != [] && t[0] == MINUS && AllDigits(t[1..]) then InRange(-(DigitsValue(t[1..]) as int), lo, hi)
    else if t != [] && t[0] == PLUS && AllDigits(t[1..]) then InRange(DigitsValue(t[1..]), lo, hi)
    else None
  }

  function InRange(n: int, lo: int, hi: int): Option<int> {
    if lo <= n <= hi then Some(n) else None
  }

  lemma {:induction false} DecimalDigits(n: nat)
    ensures AllDigits(Decimal(n))
    ensures DigitsValue(Decimal(n)) == n
  {
    if n >= 10 {
      DecimalDigits(n / 10);
      assert Decimal(n)[..|Decimal(n)| - 1] == Decimal(n / 10);
    } else {
      assert Decimal(n)[..0] == [];
    }
  }

  /** A printed integer reads back as itself exactly when it is in range. */
  lemma DecimalIntReads(n: int, lo: int, hi: int)
    ensures ToInteger(DecimalInt(n), lo, hi) == if lo <= n <= hi then Some(n) else None
  {
    if n < 0 {
      DecimalDigits(-n);
      assert DecimalInt(n)[1..] == Decimal(-n);
      assert !IsDigit(DecimalInt(n)[0]);
    } else {
      DecimalDigits(n);
    }
  }

  /** A sign may stand before the digits. */
  lemma SignedDecimalReads(sign: QChar, n: nat, lo: int, hi: int)
    requires sign == MINUS || sign == PLUS
    ensures var m: int := if sign == MINUS then -(n as int) else n;
            ToInteger([sign] + Decimal(n), lo, hi) == if lo <= m <= hi then Some(m) else None
  {
    var t := [sign] + Decimal(n);
    DecimalDigits(n);
    assert t[1..] == Decimal(n) && !IsDigit(t[0]);
    hide Decimal, DigitsValue, IsDigit;
  }
}
