/** The QString operations that the text formats use. */
module Strings {
  import opened Common
  import JsonText

  // QChar::isSpace()
  predicate IsSpace(c: char) {
    var u := c as int;
    || 0x09 <= u <= 0x0D || u == 0x20 || u == 0x85 || u == 0xA0 || u == 0x1680 || u == 0x180E
    || 0x2000 <= u <= 0x200A || u == 0x2028 || u == 0x2029 || u == 0x202F || u == 0x205F || u == 0x3000
  }

  /** The code points of white space. */
  const SPACES: set<int> :=
    {0x09, 0x0A, 0x0B, 0x0C, 0x0D, 0x20, 0x85, 0xA0, 0x1680, 0x180E, 0x2000, 0x2001, 0x2002, 0x2003, 0x2004, 0x2005,
     0x2006, 0x2007, 0x2008, 0x2009, 0x200A, 0x2028, 0x2029, 0x202F, 0x205F, 0x3000}

  lemma SpaceIs(c: char)
    ensures IsSpace(c) <==> c as int in SPACES
  {
  }

  lemma {:induction false} UntilNulAfter(a: string, b: string)
    ensures Until(a + b, '\0') == if '\0' in a then Until(a, '\0') else a + Until(b, '\0')
  {
    hide Until;
    if a == "" {
      assert a + b == b && a + Until(b, '\0') == Until(b, '\0');
    } else {
      var c, rest := a[0], a[1..];
      UntilNulAfter(rest, b);
      UntilNulCons(c, rest + b);
      UntilNulCons(c, rest);
      assert a == [c] + rest;
      ThreeParts([c], rest, b);
      ThreeParts([c], rest, Until(b, '\0'));
    }
  }

  lemma UntilNulCons(c: char, s: string)
    ensures Until([c] + s, '\0') == if c == '\0' then "" else [c] + Until(s, '\0')
  {
    assert ([c] + s)[1..] == s;
  }

  // ---- split ----

  /** split() on one character, keeping empty parts. */
  function Split(s: string, sep: char): (parts: seq<string>)
    ensures parts != []
  {
    if s == "" then [""]
    else
      var rest := Split(s[1..], sep);
      if s[0] == sep then [""] + rest else [[s[0]] + rest[0]] + rest[1..]
  }

  function Lines(lines: seq<string>): string {
    if lines == [] then "" else lines[0] + "\n" + Lines(lines[1..])
  }

  lemma {:induction false} SplitAfter(head: string, sep: char, tail: string)
    requires sep !in head
    ensures Split(head + [sep] + tail, sep) == [head] + Split(tail, sep)
  {
    var s := head + [sep] + tail;
    if head == "" {
      assert s[1..] == tail;
    } else {
      SplitAfter(head[1..], sep, tail);
      assert s[1..] == head[1..] + [sep] + tail;
      assert [head[0]] + head[1..] == head;
    }
  }

  lemma {:induction false} SplitWhole(s: string, sep: char)
    requires sep !in s
    ensures Split(s, sep) == [s]
  {
    if s != "" {
      SplitWhole(s[1..], sep);
      assert [s[0]] + s[1..] == s;
    }
  }

  /** Lines written one by one come back one by one, with an empty part after the last. */
  lemma {:induction false} SplitUndoesLines(lines: seq<string>)
    requires forall i :: 0 <= i < |lines| ==> '\n' !in lines[i]
    ensures Split(Lines(lines), '\n') == lines + [""]
  {
    if lines != [] {
      SplitUndoesLines(lines[1..]);
      SplitAfter(lines[0], '\n', Lines(lines[1..]));
      assert lines[0] + "\n" + Lines(lines[1..]) == lines[0] + ['\n'] + Lines(lines[1..]);
      assert [lines[0]] + (lines[1..] + [""]) == lines + [""];
    }
  }

  lemma {:induction false} SplitParts(s: string, sep: char, k: nat, c: char)
    requires k < |Split(s, sep)| && c in Split(s, sep)[k]
    ensures c in s && c != sep
  {
    var rest := Split(s[1..], sep);
    if s[0] == sep {
      SplitParts(s[1..], sep, k - 1, c);
    } else if k > 0 {
      SplitParts(s[1..], sep, k, c);
    } else if c in rest[0] {
      SplitParts(s[1..], sep, 0, c);
    }
  }

  // ---- trimmed ----

  function TrimLeft(s: string): string {
    if s != "" && IsSpace(s[0]) then TrimLeft(s[1..]) else s
  }

  function TrimRight(s: string): string {
    if s != "" && IsSpace(s[|s| - 1]) then TrimRight(s[..|s| - 1]) else s
  }

  function Trimmed(s: string): string {
    TrimRight(TrimLeft(s))
  }

  lemma TrimmedIs(s: string)
    requires s == "" || (!IsSpace(s[0]) && !IsSpace(s[|s| - 1]))
    ensures Trimmed(s) == s
  {
  }

  lemma {:induction false} TrimmedChars(s: string, c: char)
    requires c in Trimmed(s)
    ensures c in s
  {
    TrimRightChars(TrimLeft(s), c);
    TrimLeftChars(s, c);
  }

  lemma {:induction false} TrimLeftChars(s: string, c: char)
    requires c in TrimLeft(s)
    ensures c in s
  {
    if s != "" && IsSpace(s[0]) {
      TrimLeftChars(s[1..], c);
    }
  }

  lemma {:induction false} TrimRightChars(s: string, c: char)
    requires c in TrimRight(s)
    ensures c in s
  {
    if s != "" && IsSpace(s[|s| - 1]) {
      TrimRightChars(s[..|s| - 1], c);
    }
  }

  // ---- remove ----

  function Remove(s: string, c: char): (r: string)
    ensures c !in r
    ensures forall d :: d in r ==> d in s
  {
    if s == "" then "" else (if s[0] == c then "" else [s[0]]) + Remove(s[1..], c)
  }

  lemma {:induction false} RemoveFromQuoted(s: string, c: char)
    requires c !in s
    ensures Remove([c] + s + [c], c) == s
  {
    assert ([c] + s + [c])[1..] == s + [c];
    RemoveLast(s, c);
  }

  lemma {:induction false} RemoveLast(s: string, c: char)
    requires c !in s
    ensures Remove(s + [c], c) == s
  {
    if s != "" {
      assert (s + [c])[1..] == s[1..] + [c];
      RemoveLast(s[1..], c);
      assert [s[0]] + s[1..] == s;
    } else {
      assert ([c])[1..] == "";
    }
  }

  // ---- decimal numerals ----

  function AsText(s: string): Option<JsonText.Text> {
    if forall i :: 0 <= i < |s| ==> (s[i] as int) < 0x1_0000
    then Some(seq(|s|, i requires 0 <= i < |s| => s[i] as int))
    else None
  }

  /** QString::toInt(): 0 when the text, but for white space around it, is no int. */
  function ToInt(s: string): int {
    match AsText(Trimmed(s))
    case None => 0
    case Some(t) =>
      match JsonText.ToInteger(t, -0x8000_0000, 0x7FFF_FFFF)
      case Some(n) => n
      case None => 0
  }

  lemma BlankIsZero()
    ensures ToInt("") == 0
  {
    assert AsText("").value == [];
  }

  function Number(n: nat): (s: string)
    ensures |s| == |JsonText.Decimal(n)|
    ensures forall i :: 0 <= i < |s| ==> '0' <= s[i] <= '9' && s[i] as int == JsonText.Decimal(n)[i]
  {
    var t := JsonText.Decimal(n);
    JsonText.DecimalDigits(n);
    seq(|t|, i requires 0 <= i < |t| => assert JsonText.IsDigit(t[i]); t[i] as char)
  }

  lemma NumberReads(n: nat)
    ensures ToInt(Number(n)) == if n < 0x8000_0000 then n else 0
    ensures Number(n) != "" && forall i :: 0 <= i < |Number(n)| ==> '0' <= Number(n)[i] <= '9'
  {
    var s := Number(n);
    TrimmedIs(s);
    assert AsText(s).value == JsonText.Decimal(n);
    JsonText.DecimalIntReads(n, -0x8000_0000, 0x7FFF_FFFF);
  }

  /** A sign may stand before a number; a number that is no int gives 0. */
  lemma SignedReads(sign: char, n: nat)
    requires sign == '-' || sign == '+'
    ensures ToInt([sign] + Number(n)) ==
            var m: int := if sign == '-' then -(n as int) else n;
            if -0x8000_0000 <= m < 0x8000_0000 then m else 0
  {
    SignedText(sign, n);
    JsonText.SignedDecimalReads(sign as int, n, -0x8000_0000, 0x7FFF_FFFF);
    hide Number, AsText, Trimmed, JsonText.ToInteger;
  }

  lemma SignedText(sign: char, n: nat)
    requires sign == '-' || sign == '+'
    ensures AsText(Trimmed([sign] + Number(n))) == Some([sign as int] + JsonText.Decimal(n))
  {
    var s, d := [sign] + Number(n), Number(n);
    assert s[|s| - 1] == d[|d| - 1] && s[0] == sign;
    TrimmedIs(s);
    hide Trimmed, Number, IsSpace;
    assert AsText(s).value == [sign as int] + JsonText.Decimal(n);
  }

  /** Anything else than digits after the first character gives 0. */
  lemma NoNumeral(s: string, i: nat)
    requires 0 < i < |Trimmed(s)| && !('0' <= Trimmed(s)[i] <= '9')
    ensures ToInt(s) == 0
  {
    hide Trimmed;
    match AsText(Trimmed(s))
    case None =>
    case Some(t) =>
      assert !JsonText.IsDigit(t[i]) && t[1..][i - 1] == t[i];
  }
}
