/** ECMAScript text: white space, JSON string literals, and the line separators Go's encoder escapes. */
module JsText {
  import opened Prelude

  const LS: char := '\U{2028}'
  const PS: char := '\U{2029}'

  predicate IsLineTerminator(c: char) {
    c == '\n' || c == '\r' || c == LS || c == PS
  }

  /** WhiteSpace and LineTerminator of ECMA-262: what \s matches and trim removes. */
  predicate IsSpace(c: char) {
    || IsLineTerminator(c)
    || c in {'\t', '\U{000B}', '\U{000C}', ' ', '\U{00A0}', '\U{FEFF}', '\U{1680}', '\U{202F}', '\U{205F}', '\U{3000}'}
    || '\U{2000}' <= c <= '\U{200A}'
  }

  function TrimStart(s: string): string {
    if s != "" && IsSpace(s[0]) then TrimStart(s[1..]) else s
  }

  function TrimEnd(s: string): string {
    if s != "" && IsSpace(s[|s| - 1]) then TrimEnd(s[..|s| - 1]) else s
  }

  function Trim(s: string): string {
    TrimEnd(TrimStart(s))
  }

  /** Neither end is white space, so trim leaves the text alone. */
  predicate Trimmed(s: string) {
    s != "" && !IsSpace(s[0]) && !IsSpace(s[|s| - 1])
  }

  lemma {:induction false} TrimEndPadding(s: string, pad: string)
    requires Trimmed(s)
    requires forall c :: c in pad ==> IsSpace(c)
    ensures TrimEnd(s + pad) == s
    decreases |pad|
  {
    if pad == "" {
      assert s + pad == s;
    } else {
      assert (s + pad)[..|s + pad| - 1] == s + pad[..|pad| - 1];
      TrimEndPadding(s, pad[..|pad| - 1]);
    }
  }

  lemma {:induction false} TrimPadding(left: string, s: string, right: string)
    requires Trimmed(s)
    requires forall c :: c in left || c in right ==> IsSpace(c)
    ensures Trim(left + s + right) == s
    decreases |left|
  {
    if left == "" {
      assert left + s + right == s + right;
      TrimEndPadding(s, right);
    } else {
      assert (left + s + right)[1..] == left[1..] + s + right;
      TrimPadding(left[1..], s, right);
    }
  }

  // ---------------------------------------------------------------------------
  // JSON string literals.

  const BS: char := '\U{0008}'
  const FF: char := '\U{000C}'

  function HexDigit(k: nat): char
    requires k < 16
  {
    "0123456789abcdef"[k]
  }

  function HexValue(c: char): (v: int)
    ensures -1 <= v < 16
  {
    if '0' <= c <= '9' then c as int - '0' as int
    else if 'a' <= c <= 'f' then c as int - 'a' as int + 10
    else if 'A' <= c <= 'F' then c as int - 'A' as int + 10
    else -1
  }

  /** Value of four hexadecimal digits, or -1. */
  function Hex4(s: string): (v: int)
    requires |s| == 4
    ensures -1 <= v <= 0xFFFF
  {
    FourDigits(HexValue(s[0]), HexValue(s[1]), HexValue(s[2]), HexValue(s[3]))
  }

  function FourDigits(a: int, b: int, c: int, d: int): (v: int)
    requires a < 16 && b < 16 && c < 16 && d < 16
    ensures -1 <= v <= 0xFFFF
  {
    if a < 0 || b < 0 || c < 0 || d < 0 then -1 else a * 4096 + b * 256 + c * 16 + d
  }

  /** QuoteJSONString of ECMA-262, one character. */
  function QuoteChar(c: char): string {
    if c == '"' then "\\\""
    else if c == '\\' then "\\\\"
    else if c == BS then "\\b"
    else if c == FF then "\\f"
    else if c == '\n' then "\\n"
    else if c == '\r' then "\\r"
    else if c == '\t' then "\\t"
    else if c < ' ' then "\\u00" + [HexDigit(c as nat / 16), HexDigit(c as nat % 16)]
    else [c]
  }

  function QuoteBody(s: string): string {
    if s == "" then "" else QuoteChar(s[0]) + QuoteBody(s[1..])
  }

  function Quote(s: string): string {
    "\"" + QuoteBody(s) + "\""
  }

  method WriteQuoted(b: string, r: char) returns (out: string)
    ensures out == b + QuoteChar(r)
  {
    match r {
      case '"' => out := b + "\\\"";
      case '\\' => out := b + "\\\\";
      case '\U{0008}' => out := b + "\\b";
      case '\U{000C}' => out := b + "\\f";
      case '\n' => out := b + "\\n";
      case '\r' => out := b + "\\r";
      case '\t' => out := b + "\\t";
      case _ =>
        if r < ' ' {
          out := b + "\\u00" + [HexDigit(r as nat / 16)] + [HexDigit(r as nat % 16)];
        } else {
          out := b + [r];
        }
    }
  }

  method JSONString(s: string) returns (b: string)
    ensures b == Quote(s)
  {
    b := "\"";
    hide QuoteChar;
    for i := 0 to |s|
      invariant b + QuoteBody(s[i..]) == "\"" + QuoteBody(s)
    {
      ghost var before := b;
      b := WriteQuoted(b, s[i]);
      assert s[i..][1..] == s[i + 1..];
      assert b + QuoteBody(s[i + 1..]) == before + QuoteBody(s[i..]);
    }
    b := b + "\"";
  }

  /** What one escape sequence at the start of t stands for, and its length. */
  function EscapeAt(t: string): Option<(int, nat)>
    requires t != "" && t[0] == '\\'
  {
    if |t| < 2 then None
    else match t[1]
      case '"' => Some(('"' as int, 2))
      case '\\' => Some(('\\' as int, 2))
      case '/' => Some(('/' as int, 2))
      case 'b' => Some((BS as int, 2))
      case 'f' => Some((FF as int, 2))
      case 'n' => Some(('\n' as int, 2))
      case 'r' => Some(('\r' as int, 2))
      case 't' => Some(('\t' as int, 2))
      case 'u' => if |t| < 6 || Hex4(t[2..6]) < 0 then None else Some((Hex4(t[2..6]), 6))
      case _ => None
  }

  predicate IsHighSurrogate(code: int) {
    0xD800 <= code <= 0xDBFF
  }

  predicate IsLowSurrogate(code: int) {
    0xDC00 <= code <= 0xDFFF
  }

  /** The character that the text after a backslash stands for, and the length of its escape; a pair of surrogate
      escapes is one character, and half of a pair is none. */
  function EscapedChar(t: string): (r: Option<(char, nat)>)
    requires t != "" && t[0] == '\\'
    ensures r.Some? ==> 2 <= r.value.1 <= |t|
  {
    match EscapeAt(t)
    case None => None
    case Some((code, length)) =>
      if IsHighSurrogate(code) then
        if length < |t| && t[length] == '\\' then SurrogatePair(code, EscapeAt(t[length..])) else None
      else if IsLowSurrogate(code) then None
      else Some((code as char, length))
  }

  function SurrogatePair(high: int, next: Option<(int, nat)>): Option<(char, nat)>
    requires IsHighSurrogate(high)
  {
    if next.Some? && IsLowSurrogate(next.value.0)
    then Some(((0x1_0000 + (high - 0xD800) * 0x400 + (next.value.0 - 0xDC00)) as char, 12)) else None
  }

  /** Reads a string literal's body up to its closing quote: the value, and the text after the quote. */
  function UnquoteBody(t: string): Option<(string, string)>
    decreases |t|
  {
    if t == "" then None
    else if t[0] == '"' then Some(("", t[1..]))
    else if t[0] == '\\' then
      match EscapedChar(t)
      case None => None
      case Some((c, length)) =>
        match UnquoteBody(t[length..])
        case None => None
        case Some((s, rest)) => Some(([c] + s, rest))
    else if t[0] < ' ' then None
    else match UnquoteBody(t[1..])
      case None => None
      case Some((s, rest)) => Some(([t[0]] + s, rest))
  }

  /** JSON.parse on a text that is one string literal. */
  function Unquote(t: string): Option<string> {
    if t == "" || t[0] != '"' then None
    else match UnquoteBody(t[1..])
      case Some((s, rest)) => if rest == "" then Some(s) else None
      case None => None
  }

  /** The value read when t stands after a character c that has just been read. */
  function Consed(c: char, r: Option<(string, string)>): Option<(string, string)> {
    match r
    case None => None
    case Some((s, rest)) => Some(([c] + s, rest))
  }

  lemma EscapeReads(q: string, c: char, t: string)
    requires q != "" && q[0] == '\\' && EscapeAt(q).Some?
    requires EscapeAt(q).value == (c as int, |q| - |t|) && q[|q| - |t|..] == t
    ensures UnquoteBody(q) == Consed(c, UnquoteBody(t))
  {
  }

  lemma ControlCharReads(c: char, t: string)
    requires c < ' '
    ensures var q := "\\u00" + [HexDigit(c as nat / 16), HexDigit(c as nat % 16)] + t;
            EscapeAt(q) == Some((c as int, 6)) && q[6..] == t
  {
    var h, l := HexDigit(c as nat / 16), HexDigit(c as nat % 16);
    HexRoundTrip(c as nat / 16);
    HexRoundTrip(c as nat % 16);
    hide HexDigit;
    var q := "\\u00" + [h, l] + t;
    assert q[2..6] == ['0', '0', h, l];
    assert HexValue('0') == 0;
  }

  lemma HexRoundTrip(k: nat)
    requires k < 16
    ensures HexValue(HexDigit(k)) == k
  {
  }

  lemma UnquoteOneChar(c: char, t: string)
    ensures UnquoteBody(QuoteChar(c) + t) == Consed(c, UnquoteBody(t))
  {
    hide EscapeAt, Consed;
    var q := QuoteChar(c) + t;
    if q[0] != '\\' {
      assert q[0] == c && q[1..] == t;
      PlainReads(q);
    } else {
      hide UnquoteBody;
      EscapeOfQuoted(c, t);
      EscapeReads(q, c, t);
    }
  }

  lemma PlainReads(q: string)
    requires q != "" && q[0] != '\\' && q[0] != '"' && q[0] >= ' '
    ensures UnquoteBody(q) == Consed(q[0], UnquoteBody(q[1..]))
  {
  }

  lemma EscapeOfQuoted(c: char, t: string)
    requires QuoteChar(c)[0] == '\\'
    ensures var q := QuoteChar(c) + t;
            && q[0] == '\\'
            && EscapeAt(q) == Some((c as int, |QuoteChar(c)|))
            && q[|q| - |t|..] == t
  {
    if |QuoteChar(c)| == 6 {
      ControlCharReads(c, t);
    }
  }

  /** q is an escape that stands for c. */
  ghost predicate Escapes(q: string, c: char) {
    q != "" && q[0] == '\\' && EscapeAt(q) == Some((c as int, |q|))
  }

  lemma ShortEscapes(q: string, c: char)
    requires Escapes(q, c) && |q| == 2
    ensures c in {'"', '\\', '/', BS, FF, '\n', '\r', '\t'}
  {
  }

  lemma LowerCase(k: nat)
    requires k < 16
    ensures !('A' <= HexDigit(k) <= 'F')
  {
  }

  /** Only control characters, quotes and backslashes are escaped, by the shortest escape there is, in lower case. */
  lemma QuoteCharExactly(c: char)
    ensures QuoteChar(c) == [c] <==> c >= ' ' && c != '"' && c != '\\'
    ensures QuoteChar(c) != [c] ==> Escapes(QuoteChar(c), c)
    ensures forall q :: Escapes(q, c) ==> |QuoteChar(c)| <= |q|
    ensures |QuoteChar(c)| == 6 ==> forall i :: 0 <= i < 6 ==> !('A' <= QuoteChar(c)[i] <= 'F')
  {
    var q := QuoteChar(c);
    assert q + "" == q;
    if q[0] == '\\' {
      EscapeOfQuoted(c, "");
    }
    forall t | Escapes(t, c) ensures |q| <= |t| {
      assert |t| == 2 || |t| == 6;
      if |t| == 2 {
        ShortEscapes(t, c);
      }
    }
    if |q| == 6 {
      LowerCase(c as nat / 16);
      LowerCase(c as nat % 16);
      hide HexDigit;
    }
  }

  /** Quoting is undone by reading, whatever text follows the closing quote. */
  lemma {:induction false} UnquoteQuoteBody(s: string, rest: string)
    ensures UnquoteBody(QuoteBody(s) + "\"" + rest) == Some((s, rest))
  {
    if s == "" {
      assert QuoteBody(s) + "\"" + rest == "\"" + rest;
    } else {
      assert QuoteBody(s) + "\"" + rest == QuoteChar(s[0]) + (QuoteBody(s[1..]) + "\"" + rest);
      UnquoteOneChar(s[0], QuoteBody(s[1..]) + "\"" + rest);
      UnquoteQuoteBody(s[1..], rest);
      assert [s[0]] + s[1..] == s;
    }
  }

  lemma UnquoteQuote(s: string)
    ensures Unquote(Quote(s)) == Some(s)
  {
    assert Quote(s)[1..] == QuoteBody(s) + "\"" + "";
    UnquoteQuoteBody(s, "");
  }

  // ---------------------------------------------------------------------------
  // Line separators: Go's encoder escapes U+2028 and U+2029, JSON.stringify does not.

  /** t starts with an escaped backslash. */
  predicate Pair(t: string) {
    |t| >= 2 && t[0] == '\\' && t[1] == '\\'
  }

  /** t starts with "\u202", which every escape of a separator does. */
  predicate Candidate(t: string) {
    |t| >= 5 && t[0] == '\\' && t[1] == 'u' && t[2] == '2' && t[3] == '0' && t[4] == '2'
  }

  /** t starts with the escape of a separator. */
  predicate SepEscape(t: string) {
    Candidate(t) && |t| >= 6 && (t[5] == '8' || t[5] == '9')
  }

  function Separator(t: string): char
    requires SepEscape(t)
  {
    if t[5] == '8' then LS else PS
  }

  /** Escape by escape: an escaped backslash is passed over whole, an escaped separator becomes the
      character itself, everything else stays. */
  function LineSeps(t: string): string
    decreases |t|
  {
    if t == "" then ""
    else if Pair(t) then t[..2] + LineSeps(t[2..])
    else if SepEscape(t) then [Separator(t)] + LineSeps(t[6..])
    else [t[0]] + LineSeps(t[1..])
  }

  /** An escape of a separator, and not text that follows an escaped backslash, occurs in t. */
  predicate HasSepEscape(t: string)
    decreases |t|
  {
    if t == "" then false
    else if Pair(t) then HasSepEscape(t[2..])
    else SepEscape(t) || HasSepEscape(t[1..])
  }

  predicate HasCandidate(t: string) {
    t != "" && (Candidate(t) || HasCandidate(t[1..]))
  }

  lemma {:induction false} NoCandidateNoEscape(t: string)
    requires !HasCandidate(t)
    ensures !HasSepEscape(t)
    decreases |t|
  {
    if Pair(t) {
      assert t[1..][1..] == t[2..];
      NoCandidateNoEscape(t[2..]);
    } else if t != "" {
      NoCandidateNoEscape(t[1..]);
    }
  }

  lemma {:induction false} BackslashPairsPass(t: string, pairs: nat)
    requires 2 * pairs <= |t| && forall k :: 0 <= k < 2 * pairs ==> t[k] == '\\'
    ensures LineSeps(t) == t[..2 * pairs] + LineSeps(t[2 * pairs..])
  {
    if pairs > 0 {
      assert LineSeps(t) == t[..2] + LineSeps(t[2..]);
      hide LineSeps;
      BackslashPairsPass(t[2..], pairs - 1);
      assert t[2..][2 * (pairs - 1)..] == t[2 * pairs..];
      ConcatAssociates(t[..2], t[2..][..2 * (pairs - 1)], LineSeps(t[2 * pairs..]));
      assert t[..2] + t[2..][..2 * (pairs - 1)] == t[..2 * pairs];
    }
  }

  /** A run of backslashes is passed over in pairs; a single one left over starts an escape. */
  lemma RunOfBackslashes(b: string, i: nat, run: nat)
    requires i + run <= |b| && forall k :: i <= k < i + run ==> b[k] == '\\'
    requires i + run < |b| ==> b[i + run] != '\\'
    ensures var even := run / 2 * 2;
            && LineSeps(b[i..]) == b[i..i + even] + LineSeps(b[i + even..])
            && (run % 2 == 1 ==> i + even < |b| && b[i + even] == '\\' && !Pair(b[i + even..]))
  {
    hide LineSeps;
    BackslashPairsPass(b[i..], run / 2);
    assert b[i..][run / 2 * 2..] == b[i + run / 2 * 2..];
    assert b[i..][..run / 2 * 2] == b[i..i + run / 2 * 2];
  }

  lemma LineSepsStep(b: string, i: nat)
    requires i < |b| && !Pair(b[i..])
    ensures LineSeps(b[i..]) ==
            if SepEscape(b[i..]) then [Separator(b[i..])] + LineSeps(b[i + 6..]) else [b[i]] + LineSeps(b[i + 1..])
  {
    assert b[i..][1..] == b[i + 1..];
    if SepEscape(b[i..]) {
      assert b[i..][6..] == b[i + 6..];
    }
  }

  /** Writes a run of backslashes, as far as it pairs up. */
  method WritePairs(b: string, i: nat, out: string) returns (out': string, i': nat, odd: bool)
    requires i < |b| && b[i] == '\\'
    ensures i <= i' <= |b| && (odd || i < i')
    ensures odd ==> i' < |b| && b[i'] == '\\' && !Pair(b[i'..])
    ensures out' + LineSeps(b[i'..]) == out + LineSeps(b[i..])
  {
    hide LineSeps;
    var run := 0;
    while i + run < |b| && b[i + run] == '\\'
      invariant 0 <= run && i + run <= |b|
      invariant forall k :: i <= k < i + run ==> b[k] == '\\'
    {
      run := run + 1;
    }
    RunOfBackslashes(b, i, run);
    var pairs := run / 2;
    out' := out;
    for j := 0 to pairs * 2
      invariant out' == out + b[i..i + j]
    {
      out' := out' + "\\";
    }
    i' := i + pairs * 2;
    odd := run % 2 == 1;
    ConcatAssociates(out, b[i..i'], LineSeps(b[i'..]));
  }

  /** What an unpaired backslash starts: a separator's escape becomes the character, any other passes. */
  method WriteEscape(b: string, i: nat, out: string) returns (out': string, i': nat)
    requires i < |b| && b[i] == '\\' && !Pair(b[i..])
    ensures i < i' <= |b|
    ensures out' + LineSeps(b[i'..]) == out + LineSeps(b[i..])
  {
    hide LineSeps;
    LineSepsStep(b, i);
    if SepEscape(b[i..]) {
      out', i' := out + [Separator(b[i..])], i + 6;
    } else {
      out', i' := out + [b[i]], i + 1;
    }
    ConcatAssociates(out, out'[|out|..], LineSeps(b[i'..]));
  }

  /** The loop over runs of backslashes computes the escape-by-escape function, on every text. */
  method UnescapeLineSeps(b: string) returns (out: string)
    ensures out == LineSeps(b)
  {
    if !HasCandidate(b) {
      NoCandidateNoEscape(b);
      LineSepsChangesOnlyEscapes(b);
      return b;
    }
    hide LineSeps, HasCandidate;
    out := "";
    var i := 0;
    while i < |b|
      invariant 0 <= i <= |b|
      invariant out + LineSeps(b[i..]) == LineSeps(b)
    {
      if b[i] != '\\' {
        LineSepsStep(b, i);
        ConcatAssociates(out, [b[i]], LineSeps(b[i + 1..]));
        out := out + [b[i]];
        i := i + 1;
      } else {
        var odd;
        out, i, odd := WritePairs(b, i, out);
        if odd {
          out, i := WriteEscape(b, i, out);
        }
      }
    }
    LineSepsEmpty(b[i..]);
  }

  lemma LineSepsEmpty(t: string)
    requires t == ""
    ensures LineSeps(t) == ""
  {
  }

  /** Text without a separator escape is left alone, escaped backslashes included; any other text changes. */
  lemma {:induction false} LineSepsChangesOnlyEscapes(t: string)
    ensures LineSeps(t) == t <==> !HasSepEscape(t)
    ensures |LineSeps(t)| <= |t|
    ensures HasSepEscape(t) ==> |LineSeps(t)| < |t|
    decreases |t|
  {
    if Pair(t) {
      assert t == t[..2] + t[2..];
      LineSepsChangesOnlyEscapes(t[2..]);
    } else if SepEscape(t) {
      LineSepsChangesOnlyEscapes(t[6..]);
    } else if t != "" {
      assert t == [t[0]] + t[1..];
      LineSepsChangesOnlyEscapes(t[1..]);
    }
  }

  /** Plain text at the front of the result was there in the input. */
  lemma {:induction false} LineSepsFront(t: string, n: nat)
    requires n <= |LineSeps(t)|
    requires forall k :: 0 <= k < n ==> LineSeps(t)[k] != '\\' && LineSeps(t)[k] != LS && LineSeps(t)[k] != PS
    ensures n <= |t| && forall k :: 0 <= k < n ==> t[k] == LineSeps(t)[k]
  {
    if n > 0 {
      assert LineSeps(t)[0] != '\\';
      assert LineSeps(t)[1..] == LineSeps(t[1..]);
      assert forall k :: 0 <= k < n - 1 ==> LineSeps(t[1..])[k] == LineSeps(t)[k + 1];
      LineSepsFront(t[1..], n - 1);
      assert forall k :: 1 <= k < n ==> t[k] == t[1..][k - 1];
    }
  }

  /** A backslash that starts neither a pair nor a separator's escape still does not after the rewriting. */
  lemma LoneBackslashStays(t: string)
    requires t != "" && t[0] == '\\' && !Pair(t) && !SepEscape(t)
    ensures var u := [t[0]] + LineSeps(t[1..]); !Pair(u) && !SepEscape(u)
  {
    var rest := LineSeps(t[1..]);
    var u := [t[0]] + rest;
    if SepEscape(u) {
      hide LineSeps;
      assert forall k :: 0 <= k < 5 ==> rest[k] == u[k + 1];
      LineSepsFront(t[1..], 5);
    }
  }

  /** No escape of a separator is left. */
  lemma {:induction false} LineSepsLeavesNone(t: string)
    ensures !HasSepEscape(LineSeps(t))
    decreases |t|
  {
    var u := LineSeps(t);
    if Pair(t) {
      LineSepsLeavesNone(t[2..]);
      assert Pair(u) && u[2..] == LineSeps(t[2..]);
    } else if SepEscape(t) {
      LineSepsLeavesNone(t[6..]);
      assert u[1..] == LineSeps(t[6..]);
    } else if t != "" {
      LineSepsLeavesNone(t[1..]);
      assert u[1..] == LineSeps(t[1..]);
      if t[0] == '\\' {
        LoneBackslashStays(t);
      }
    }
  }

  lemma LineSepsIdempotent(t: string)
    ensures LineSeps(LineSeps(t)) == LineSeps(t)
  {
    LineSepsLeavesNone(t);
    LineSepsChangesOnlyEscapes(LineSeps(t));
  }

  /** One symbol of JSON text as section 7 of RFC 8259 reads it: a delimiting quotation mark, or a
      character, written as itself or as an escape. */
  datatype Symbol = QuotationMark | Character(code: int)

  function ReadSymbols(t: string): Option<seq<Symbol>>
    decreases |t|
  {
    if t == "" then Some([])
    else if t[0] == '\\' then
      match EscapeAt(t)
      case None => None
      case Some((code, length)) => Prepend(Character(code), ReadSymbols(t[length..]))
    else Prepend(if t[0] == '"' then QuotationMark else Character(t[0] as int), ReadSymbols(t[1..]))
  }

  function Prepend(s: Symbol, rest: Option<seq<Symbol>>): Option<seq<Symbol>> {
    if rest.None? then None else Some([s] + rest.value)
  }

  lemma {:induction false} LineSepsPasses(t: string, n: nat)
    requires n <= |t| && forall k :: 0 <= k < n ==> t[k] != '\\'
    ensures LineSeps(t) == t[..n] + LineSeps(t[n..])
  {
    if n > 0 {
      assert LineSeps(t) == [t[0]] + LineSeps(t[1..]);
      hide LineSeps;
      LineSepsPasses(t[1..], n - 1);
      assert t[1..][n - 1..] == t[n..];
      ConcatAssociates([t[0]], t[1..][..n - 1], LineSeps(t[n..]));
      assert t[..n] == [t[0]] + t[1..][..n - 1];
    }
  }

  lemma SepEscapeCode(t: string)
    requires SepEscape(t)
    ensures EscapeAt(t) == Some((Separator(t) as int, 6))
  {
    var h := t[2..6];
    assert HexValue(h[0]) == 2 && HexValue(h[1]) == 0 && HexValue(h[2]) == 2;
    assert HexValue(h[3]) == if t[5] == '8' then 8 else 9;
  }

  /** Apart from its first backslash and an escaped backslash, an escape is plain text. */
  lemma EscapeIsPlain(t: string)
    requires t != "" && t[0] == '\\' && EscapeAt(t).Some?
    ensures var length := EscapeAt(t).value.1;
            && 2 <= length <= |t|
            && (Pair(t) ==> length == 2)
            && (!Pair(t) ==> forall k :: 1 <= k < length ==> t[k] != '\\')
  {
    if t[1] == 'u' {
      var h := t[2..6];
      assert h[0] == t[2] && h[1] == t[3] && h[2] == t[4] && h[3] == t[5];
    }
  }

  lemma PassesWhole(t: string, length: nat)
    requires 2 <= length <= |t| && !Pair(t) && !SepEscape(t)
    requires forall k :: 1 <= k < length ==> t[k] != '\\'
    ensures LineSeps(t) == t[..length] + LineSeps(t[length..])
  {
    assert LineSeps(t) == [t[0]] + LineSeps(t[1..]);
    hide LineSeps;
    LineSepsPasses(t[1..], length - 1);
    assert t[1..][length - 1..] == t[length..];
    ConcatAssociates([t[0]], t[1..][..length - 1], LineSeps(t[length..]));
    assert t[..length] == [t[0]] + t[1..][..length - 1];
  }

  /** An escape other than a separator's is passed through whole. */
  lemma OtherEscapePasses(t: string)
    requires t != "" && t[0] == '\\' && EscapeAt(t).Some? && !SepEscape(t)
    ensures var length := EscapeAt(t).value.1;
            length <= |t| && LineSeps(t) == t[..length] + LineSeps(t[length..])
  {
    hide EscapeAt;
    EscapeIsPlain(t);
    if !Pair(t) {
      PassesWhole(t, EscapeAt(t).value.1);
    }
  }

  lemma SameEscape(t: string, u: string, length: nat)
    requires t != "" && t[0] == '\\' && EscapeAt(t).Some? && EscapeAt(t).value.1 == length
    requires length <= |t| && length <= |u| && u[..length] == t[..length]
    ensures u != "" && u[0] == '\\' && EscapeAt(u) == EscapeAt(t)
  {
    assert forall k :: 0 <= k < length ==> u[k] == u[..length][k] == t[..length][k] == t[k];
    if length == 6 {
      assert u[2..6] == t[2..6];
    }
  }

  /** On every text whose escapes are well formed, the decoded symbols are the same before and after. */
  lemma {:induction false} LineSepsKeepsReading(t: string)
    requires ReadSymbols(t).Some?
    ensures ReadSymbols(LineSeps(t)) == ReadSymbols(t)
    decreases |t|
  {
    var u := LineSeps(t);
    if t == "" {
    } else if t[0] != '\\' {
      LineSepsKeepsReading(t[1..]);
      assert u[0] == t[0] && u[1..] == LineSeps(t[1..]);
    } else {
      var length := EscapeAt(t).value.1;
      LineSepsKeepsReading(t[length..]);
      if SepEscape(t) {
        SepEscapeCode(t);
        assert u[0] == Separator(t) && u[1..] == LineSeps(t[6..]);
      } else {
        OtherEscapePasses(t);
        hide LineSeps, EscapeAt;
        assert u[..length] == t[..length] && u[length..] == LineSeps(t[length..]);
        SameEscape(t, u, length);
      }
    }
  }
}
