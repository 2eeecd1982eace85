/** JSON string literals, symbol by symbol: which texts are read, and as what. */
module JsonStrings {
  import opened Prelude
  import opened JsText

  ghost predicate HexDigitIs(c: char, v: int) {
    0 <= v < 16 && (c == "0123456789abcdef"[v] || c == "0123456789ABCDEF"[v])
  }

  /** Four hexadecimal digits, of either case, and the number that they write. */
  ghost predicate IsHex(h: string, code: int) {
    |h| == 4 && exists a, b, c, d ::
      && HexDigitIs(h[0], a) && HexDigitIs(h[1], b) && HexDigitIs(h[2], c) && HexDigitIs(h[3], d)
      && code == ((a * 16 + b) * 16 + c) * 16 + d
  }

  ghost predicate IsUnicodeEscape(t: string, code: int) {
    |t| == 6 && t[0] == '\\' && t[1] == 'u' && IsHex(t[2..], code)
  }

  ghost predicate IsShortEscape(t: string, c: char) {
    || (t == "\\\"" && c == '"') || (t == "\\\\" && c == '\\') || (t == "\\/" && c == '/')
    || (t == "\\b" && c == '\U{0008}') || (t == "\\f" && c == '\U{000C}') || (t == "\\n" && c == '\n')
    || (t == "\\r" && c == '\r') || (t == "\\t" && c == '\t')
  }

  /** One symbol of a literal: the character itself, an escape, or two escapes for one beyond the basic plane. */
  ghost predicate StandsFor(t: string, c: char) {
    || (t == [c] && c >= ' ' && c != '"' && c != '\\')
    || IsShortEscape(t, c)
    || IsSingleEscape(t, c)
    || IsEscapePair(t, c)
  }

  ghost predicate IsSingleEscape(t: string, c: char) {
    IsUnicodeEscape(t, c as int) && !(0xD800 <= c as int < 0xE000)
  }

  ghost predicate IsEscapePair(t: string, c: char) {
    |t| == 12 && exists high, low :: IsPairOf(t, c, high, low)
  }

  ghost predicate IsPairOf(t: string, c: char, high: int, low: int)
    requires |t| == 12
  {
    && IsUnicodeEscape(t[..6], high) && IsUnicodeEscape(t[6..], low)
    && 0xD800 <= high < 0xDC00 && 0xDC00 <= low < 0xE000
    && c as int == 0x1_0000 + (high - 0xD800) * 0x400 + (low - 0xDC00)
  }

  ghost predicate Spells(body: string, v: string)
    decreases |v|
  {
    if v == "" then body == ""
    else exists t, rest :: body == t + rest && StandsFor(t, v[0]) && Spells(rest, v[1..])
  }

  ghost predicate IsStringLiteral(t: string, v: string) {
    exists body :: t == "\"" + body + "\"" && Spells(body, v)
  }

  // ---------------------------------------------------------------------------
  // Escapes.

  lemma HexValueIs(c: char, v: int)
    ensures HexDigitIs(c, v) <==> HexValue(c) == v && v >= 0
  {
  }

  lemma Hex4Is(h: string, code: int)
    requires |h| == 4
    ensures IsHex(h, code) <==> Hex4(h) == code && code >= 0
  {
    var (a, b, c, d) := (HexValue(h[0]), HexValue(h[1]), HexValue(h[2]), HexValue(h[3]));
    forall v ensures HexDigitIs(h[0], v) <==> a == v && v >= 0 {
      HexValueIs(h[0], v);
    }
    forall v ensures HexDigitIs(h[1], v) <==> b == v && v >= 0 {
      HexValueIs(h[1], v);
    }
    forall v ensures HexDigitIs(h[2], v) <==> c == v && v >= 0 {
      HexValueIs(h[2], v);
    }
    forall v ensures HexDigitIs(h[3], v) <==> d == v && v >= 0 {
      HexValueIs(h[3], v);
    }
    hide HexDigitIs, HexValue;
    if a >= 0 && b >= 0 && c >= 0 && d >= 0 {
      assert HexDigitIs(h[0], a) && HexDigitIs(h[1], b) && HexDigitIs(h[2], c) && HexDigitIs(h[3], d);
      assert Hex4(h) == ((a * 16 + b) * 16 + c) * 16 + d;
      assert IsHex(h, Hex4(h));
    }
  }

  lemma UnicodeEscapeIs(t: string, code: int)
    requires |t| >= 6 && t[0] == '\\' && t[1] == 'u'
    ensures IsUnicodeEscape(t[..6], code) <==> EscapeAt(t) == Some((code, 6))
  {
    assert t[..6][2..] == t[2..6];
    Hex4Is(t[2..6], code);
    hide Hex4, IsHex;
  }

  lemma ShortEscapeIs(t: string, c: char)
    requires |t| >= 2 && t[0] == '\\'
    ensures IsShortEscape(t[..2], c) <==> EscapeAt(t) == Some((c as int, 2))
  {
    hide Hex4;
  }

  lemma EscapeLength(t: string)
    requires t != "" && t[0] == '\\' && EscapeAt(t).Some?
    ensures var (code, length) := EscapeAt(t).value;
            length <= |t| && ((length == 2 && 0 <= code < 0x80) || (length == 6 && t[1] == 'u'))
  {
    hide Hex4;
  }

  lemma EscapedUnfolds(t: string, c: char, n: nat)
    requires t != "" && t[0] == '\\' && EscapedChar(t) == Some((c, n))
    ensures EscapeAt(t).Some?
    ensures var (code, length) := EscapeAt(t).value;
            && (!IsHighSurrogate(code) ==> !IsLowSurrogate(code) && c as int == code && n == length)
            && (IsHighSurrogate(code) ==>
                  && length < |t| && t[length] == '\\' && EscapeAt(t[length..]).Some?
                  && IsLowSurrogate(EscapeAt(t[length..]).value.0) && n == 12
                  && c as int == 0x1_0000 + (code - 0xD800) * 0x400 + (EscapeAt(t[length..]).value.0 - 0xDC00))
  {
    hide Hex4;
  }

  lemma PairTaken(t: string, c: char, high: int, low: int)
    requires |t| >= 12 && t[0] == '\\' && t[1] == 'u' && t[6] == '\\' && t[7] == 'u'
    requires EscapeAt(t) == Some((high, 6)) && EscapeAt(t[6..]) == Some((low, 6))
    requires 0xD800 <= high < 0xDC00 && 0xDC00 <= low < 0xE000
    requires c as int == 0x1_0000 + (high - 0xD800) * 0x400 + (low - 0xDC00)
    ensures IsEscapePair(t[..12], c)
  {
    UnicodeEscapeIs(t, high);
    UnicodeEscapeIs(t[6..], low);
    assert t[6..][..6] == t[..12][6..] && t[..12][..6] == t[..6];
    hide EscapeAt, IsUnicodeEscape;
    assert IsPairOf(t[..12], c, high, low);
  }

  lemma SingleTaken(t: string, c: char, length: nat)
    requires |t| >= 2 && t[0] == '\\' && EscapeAt(t) == Some((c as int, length)) && !(0xD800 <= c as int < 0xE000)
    ensures length <= |t| && (IsShortEscape(t[..length], c) || IsSingleEscape(t[..length], c))
  {
    EscapeLength(t);
    hide EscapeAt, IsShortEscape, IsUnicodeEscape;
    if length == 2 {
      ShortEscapeIs(t, c);
    } else {
      UnicodeEscapeIs(t, c as int);
    }
  }

  /** What the reader takes for an escape is one. */
  lemma EscapeStands(t: string, c: char, n: nat)
    requires t != "" && t[0] == '\\' && EscapedChar(t) == Some((c, n))
    ensures n <= |t| && StandsFor(t[..n], c)
  {
    EscapedUnfolds(t, c, n);
    EscapeLength(t);
    var (code, length) := EscapeAt(t).value;
    hide EscapeAt, EscapedChar, IsShortEscape, IsSingleEscape, IsEscapePair;
    if IsHighSurrogate(code) {
      EscapeLength(t[length..]);
      PairTaken(t, c, code, EscapeAt(t[length..]).value.0);
    } else {
      SingleTaken(t, c, length);
    }
  }

  lemma PairReads(s: string, high: int, low: int)
    requires |s| >= 12 && IsUnicodeEscape(s[..6], high) && IsUnicodeEscape(s[6..12], low)
    requires 0xD800 <= high < 0xDC00 && 0xDC00 <= low < 0xE000
    ensures s[0] == '\\'
    ensures EscapedChar(s) == Some(((0x1_0000 + (high - 0xD800) * 0x400 + (low - 0xDC00)) as char, 12))
  {
    assert s[0] == s[..6][0] && s[1] == s[..6][1] && s[6] == s[6..12][0] && s[7] == s[6..12][1];
    assert s[6..][..6] == s[6..12];
    UnicodeEscapeIs(s, high);
    UnicodeEscapeIs(s[6..], low);
    hide IsUnicodeEscape, EscapeAt;
  }

  lemma OneEscapeReads(s: string, c: char)
    requires |s| >= 6 && IsSingleEscape(s[..6], c)
    ensures s[0] == '\\' && EscapedChar(s) == Some((c, 6))
  {
    assert s[0] == s[..6][0] && s[1] == s[..6][1];
    UnicodeEscapeIs(s, c as int);
    hide IsUnicodeEscape, EscapeAt;
  }

  lemma ShortEscapeReads(s: string, c: char)
    requires |s| >= 2 && IsShortEscape(s[..2], c)
    ensures s[0] == '\\' && EscapedChar(s) == Some((c, 2))
  {
    assert s[0] == s[..2][0];
    ShortEscapeIs(s, c);
  }

  lemma PairEscapes(t: string, s: string, c: char)
    requires IsEscapePair(t, c) && |s| >= 12 && s[..12] == t
    ensures s[0] == '\\' && EscapedChar(s) == Some((c, 12))
  {
    var high, low :| IsPairOf(t, c, high, low);
    assert s[..6] == t[..6] && s[6..12] == t[6..];
    hide IsUnicodeEscape, EscapedChar;
    PairReads(s, high, low);
  }

  /** A symbol at the start of a text is read as what it stands for. */
  lemma StandsEscape(t: string, more: string, c: char)
    requires StandsFor(t, c) && t != [c]
    ensures t != "" && t[0] == '\\' && EscapedChar(t + more) == Some((c, |t|))
  {
    var s := t + more;
    assert s[..|t|] == t;
    EscapeLengths(t, c);
    hide IsShortEscape, IsSingleEscape, IsEscapePair, EscapedChar;
    if IsShortEscape(t, c) {
      ShortEscapeReads(s, c);
    } else if IsSingleEscape(t, c) {
      OneEscapeReads(s, c);
    } else {
      PairEscapes(t, s, c);
    }
    assert t[0] == s[0];
  }

  lemma EscapeLengths(t: string, c: char)
    ensures IsShortEscape(t, c) ==> |t| == 2
    ensures IsSingleEscape(t, c) ==> |t| == 6
    ensures IsEscapePair(t, c) ==> |t| == 12
  {
  }

  lemma SymbolReads(t: string, more: string, c: char)
    requires StandsFor(t, c)
    ensures UnquoteBody(t + more) == Consed(c, UnquoteBody(more))
  {
    if t == [c] {
      assert (t + more)[1..] == more;
      assert c != '"' && c != '\\' && c >= ' ' by {
        OneSymbol(t, c);
      }
      hide StandsFor, EscapedChar;
    } else {
      StandsEscape(t, more, c);
      assert (t + more)[|t|..] == more;
      hide StandsFor, EscapedChar;
    }
  }

  lemma OneSymbol(t: string, c: char)
    requires StandsFor(t, c) && |t| == 1
    ensures c >= ' ' && c != '"' && c != '\\'
  {
  }

  lemma {:induction false} SpelledReads(body: string, rest: string, v: string)
    requires Spells(body, v)
    ensures UnquoteBody(body + "\"" + rest) == Some((v, rest))
    decreases |v|
  {
    if v == "" {
      assert (body + "\"" + rest)[1..] == rest;
    } else {
      var t, more :| body == t + more && StandsFor(t, v[0]) && Spells(more, v[1..]);
      assert body + "\"" + rest == t + (more + "\"" + rest);
      assert v == [v[0]] + v[1..];
      hide *;
      SpelledReads(more, rest, v[1..]);
      SymbolReads(t, more + "\"" + rest, v[0]);
      ConsedIs(v[0], v[1..], rest);
    }
  }

  lemma ConsedIs(c: char, v: string, rest: string)
    ensures Consed(c, Some((v, rest))) == Some(([c] + v, rest))
  {
  }

  lemma SpellsMore(t: string, body: string, c: char, v: string)
    requires StandsFor(t, c) && Spells(body, v)
    ensures Spells(t + body, [c] + v)
  {
    assert ([c] + v)[1..] == v && ([c] + v)[0] == c;
    hide StandsFor;
  }

  /** The first symbol that the reader takes. */
  lemma FirstSymbol(s: string) returns (c: char, n: nat)
    requires UnquoteBody(s).Some? && s[0] != '"'
    ensures 0 < n <= |s| && UnquoteBody(s[n..]).Some? && StandsFor(s[..n], c)
    ensures var (v, rest) := UnquoteBody(s[n..]).value; UnquoteBody(s) == Some(([c] + v, rest))
  {
    hide EscapedChar, IsShortEscape, IsSingleEscape, IsEscapePair;
    if s[0] == '\\' {
      c, n := EscapedChar(s).value.0, EscapedChar(s).value.1;
      EscapeStands(s, c, n);
    } else {
      c, n := s[0], 1;
    }
  }

  lemma QuoteEnds(s: string)
    requires UnquoteBody(s).Some? && s[0] == '"'
    ensures UnquoteBody(s) == Some(("", s[1..])) && s == "" + "\"" + s[1..] && Spells("", "")
  {
  }

  lemma ReadIsNotEmpty(s: string)
    requires UnquoteBody(s).Some?
    ensures s != ""
  {
  }

  /** What the reader takes from a text is spelled there, before a closing quotation mark. */
  lemma {:induction false} ReadIsSpelled(s: string) returns (body: string)
    requires UnquoteBody(s).Some?
    ensures var (v, rest) := UnquoteBody(s).value; s == body + "\"" + rest && Spells(body, v)
    decreases |s|
  {
    hide *;
    ReadIsNotEmpty(s);
    if s[0] == '"' {
      QuoteEnds(s);
      body := "";
    } else {
      var c, n := FirstSymbol(s);
      var more := ReadIsSpelled(s[n..]);
      body := s[..n] + more;
      assert s == s[..n] + s[n..];
      SpellsMore(s[..n], more, c, UnquoteBody(s[n..]).value.0);
    }
  }

  /** A text is read as a string exactly when it is a literal that spells it, escapes of either case and all. */
  lemma UnquoteExactly(t: string, v: string)
    ensures Unquote(t) == Some(v) <==> IsStringLiteral(t, v)
  {
    if Unquote(t) == Some(v) {
      var body := ReadIsSpelled(t[1..]);
      assert body + "\"" + "" == body + "\"";
      assert t == "\"" + body + "\"";
    }
    if body :| t == "\"" + body + "\"" && Spells(body, v) {
      SpelledReads(body, "", v);
      assert t[1..] == body + "\"" + "";
    }
  }
}
