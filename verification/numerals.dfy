/** Decimal text: rendering natural numbers (the `f'{i}'` of generated ids),
    Python's `int(text)`, and the small literal reader that takes the place of
    `eval` on integer, decimal and list/tuple displays. */
module Numerals {
  import opened Wrappers
  import opened Text

  predicate IsDigit(c: char) {
    '0' <= c <= '9'
  }

  predicate AllDigits(s: string) {
    forall i :: 0 <= i < |s| ==> IsDigit(s[i])
  }

  function DigitValue(c: char): nat
    requires IsDigit(c)
  {
    c as int - '0' as int
  }

  function DigitChar(d: nat): (c: char)
    requires d < 10
    ensures IsDigit(c) && DigitValue(c) == d
  {
    ('0' as int + d) as char
  }

  /** The number a run of decimal digits denotes, most significant digit first. */
  function DigitsValue(s: string): nat
    requires AllDigits(s)
  {
    if |s| == 0 then 0 else 10 * DigitsValue(s[..|s| - 1]) + DigitValue(s[|s| - 1])
  }

  /** Python's `str(n)` for `n >= 0`: the shortest decimal text denoting `n`. */
  function NatToString(n: nat): (s: string)
    ensures |s| >= 1 && AllDigits(s)
    ensures DigitsValue(s) == n
    ensures s[0] == '0' ==> s == "0"
  {
    if n < 10 then [DigitChar(n)]
    else
      var prefix := NatToString(n / 10);
      var s := prefix + [DigitChar(n % 10)];
      assert s[..|s| - 1] == prefix;
      s
  }

  /** Distinct numbers render as distinct texts. */
  lemma NatToStringInjective(m: nat, n: nat)
    requires NatToString(m) == NatToString(n)
    ensures m == n
  {
  }

  /** Python's `str(n)`. */
  function IntToString(n: int): string {
    if n < 0 then "-" + NatToString(-n) else NatToString(n)
  }

  // ---------------------------------------------------------------------------
  // integers

  /** The digit string of a Python integer literal: no leading zero unless every digit is zero. */
  predicate LiteralDigits(d: string)
    requires |d| > 0
  {
    d[0] != '0' || forall i :: 0 <= i < |d| ==> d[i] == '0'
  }

  /** An already stripped text made of an optional `+` or `-` followed by digits;
      `literal` adds the rule Python's literal grammar puts on leading zeros. */
  function ParseSigned(t: string, literal: bool): Option<int> {
    var digits := if |t| > 0 && (t[0] == '-' || t[0] == '+') then t[1..] else t;
    if |digits| > 0 && AllDigits(digits) && (!literal || LiteralDigits(digits)) then
      var magnitude: int := DigitsValue(digits);
      Some(if |t| > 0 && t[0] == '-' then -magnitude else magnitude)
    else
      None
  }

  /** Python's `int(text)` on base-10 text: surrounding whitespace, an optional sign, digits. */
  function ParseInt(text: string): Option<int> {
    ParseSigned(Strip(text), false)
  }

  // ---------------------------------------------------------------------------
  // the whitespace `eval` accepts

  /** The characters Python's tokenizer skips between the tokens of one line. */
  predicate IsTokenSpace(c: char) {
    c == ' ' || c == '\t' || c == '\U{C}'
  }

  /** A line break; the tokenizer reads `\r` and `\r\n` as `\n`. */
  predicate IsLineBreak(c: char) {
    c == '\n' || c == '\r'
  }

  /** Whitespace the tokenizer skips: token spaces, and line breaks too when `breaks`
      (inside brackets, where lines are joined). */
  predicate Gap(s: string, breaks: bool) {
    forall i :: 0 <= i < |s| ==> IsTokenSpace(s[i]) || (breaks && IsLineBreak(s[i]))
  }

  /** Whitespace `eval` accepts before an expression. It drops leading spaces and
      tabs itself; after that the tokenizer skips blank lines, but the line that
      holds the expression must not be indented, so what is left is empty or ends
      in a line break or a form feed (which resets the column to zero). */
  predicate EvalLead(lead: string) {
    if |lead| > 0 && (lead[0] == ' ' || lead[0] == '\t') then EvalLead(lead[1..])
    else Gap(lead, true) && (lead == [] || IsLineBreak(lead[|lead| - 1]) || lead[|lead| - 1] == '\U{C}')
  }

  /** The whitespace `strip()` would remove around the text is whitespace that
      `eval` accepts around an expression: no-break spaces, vertical tabs and the
      other Unicode spaces are not among it. */
  predicate EvalPadding(text: string) {
    EvalLead(LeadPad(text)) && Gap(TrailPad(text), true)
  }

  /** The whitespace around one item of a display is skipped by the tokenizer. */
  predicate ItemPadding(piece: string, bracketed: bool) {
    Gap(LeadPad(piece), bracketed) && Gap(TrailPad(piece), bracketed)
  }

  /** Every item of a display is padded as the tokenizer allows there. */
  predicate PiecesPadded(pieces: seq<string>, bracketed: bool) {
    forall i :: 0 <= i < |pieces| ==> ItemPadding(pieces[i], bracketed)
  }

  /** Everything `eval` accepts as leading whitespace is whitespace the tokenizer skips. */
  lemma {:induction false} EvalLeadGap(lead: string)
    requires EvalLead(lead)
    ensures Gap(lead, true) && AllSpace(lead)
  {
    if |lead| > 0 && (lead[0] == ' ' || lead[0] == '\t') {
      EvalLeadGap(lead[1..]);
      assert forall i :: 1 <= i < |lead| ==> lead[i] == lead[1..][i - 1];
    }
  }

  /** Spaces and tabs alone are always accepted before an expression, since `eval`
      drops them itself. */
  lemma {:induction false} EvalLeadBlanks(lead: string)
    requires forall i :: 0 <= i < |lead| ==> lead[i] == ' ' || lead[i] == '\t'
    ensures EvalLead(lead)
  {
    if |lead| > 0 {
      EvalLeadBlanks(lead[1..]);
    }
  }

  /** An indented line after a line break is refused, as Python's "unexpected
      indent". */
  lemma {:induction false} EvalLeadIndent(lead: string, i: nat)
    requires i < |lead| && IsLineBreak(lead[i])
    requires lead[|lead| - 1] == ' ' || lead[|lead| - 1] == '\t'
    ensures !EvalLead(lead)
  {
    if lead[0] == ' ' || lead[0] == '\t' {
      EvalLeadIndent(lead[1..], i - 1);
    }
  }

  /** A text without surrounding whitespace has no padding to refuse. */
  lemma Unpadded(t: string)
    requires Trimmed(t) && t != []
    ensures LeadPad(t) == [] && TrailPad(t) == []
    ensures EvalPadding(t) && ItemPadding(t, false) && ItemPadding(t, true)
  {
    PadsOf([], t, []);
    assert [] + t + [] == t;
  }

  /** One integer item of a display, as the tokenizer reads it once the display
      around it has accepted its padding. */
  function ParseIntToken(text: string): Option<int> {
    ParseSigned(Strip(text), true)
  }

  /** What `eval(text)` yields when the text is a signed integer literal; absent
      otherwise, including when the padding is not whitespace `eval` accepts. */
  function ParseIntLiteral(text: string): Option<int> {
    if EvalPadding(text) then ParseIntToken(text) else None
  }

  /** The rendering of an integer is a trimmed text without commas, brackets or separators. */
  lemma IntToStringShape(n: int)
    ensures var s := IntToString(n);
      && |s| >= 1 && Trimmed(s)
      && forall i :: 0 <= i < |s| ==> s[i] == '-' || IsDigit(s[i])
  {
    var s := IntToString(n);
    if n < 0 {
      assert s[1..] == NatToString(-n);
    }
  }

  /** `int()` returns exactly the integer whose rendering it is given, whatever
      whitespace surrounds it; so does the item reader, whose caller checks the
      padding of each item. */
  lemma {:induction false} IntRoundTrip(n: int, lead: string, trail: string)
    requires AllSpace(lead) && AllSpace(trail)
    ensures ParseInt(lead + IntToString(n) + trail) == Some(n)
    ensures ParseIntToken(lead + IntToString(n) + trail) == Some(n)
  {
    var s := IntToString(n);
    IntToStringShape(n);
    StripPadded(lead, s, trail);
    if n < 0 {
      assert s[1..] == NatToString(-n);
    }
  }

  /** `eval` returns the integer whose rendering it is given exactly when the
      whitespace around it is whitespace `eval` accepts. */
  lemma LiteralRoundTrip(n: int, lead: string, trail: string)
    requires AllSpace(lead) && AllSpace(trail)
    ensures ParseIntLiteral(lead + IntToString(n) + trail)
         == if EvalLead(lead) && Gap(trail, true) then Some(n) else None
  {
    IntRoundTrip(n, lead, trail);
    IntToStringShape(n);
    PadsOf(lead, IntToString(n), trail);
  }

  /** A run of `k` zero digits. */
  function Zeros(k: nat): (z: string)
    ensures |z| == k && AllDigits(z)
    ensures forall i :: 0 <= i < k ==> z[i] == '0'
  {
    seq(k, _ => '0')
  }

  lemma {:induction false} ZerosValue(k: nat)
    ensures DigitsValue(Zeros(k)) == 0
  {
    if k > 0 {
      assert Zeros(k)[..k - 1] == Zeros(k - 1);
      ZerosValue(k - 1);
    }
  }

  /** Leading zeros do not change the number a run of digits denotes. */
  lemma {:induction false} LeadingZerosValue(k: nat, s: string)
    requires AllDigits(s)
    ensures AllDigits(Zeros(k) + s)
    ensures DigitsValue(Zeros(k) + s) == DigitsValue(s)
    decreases |s|
  {
    var z := Zeros(k) + s;
    if s == [] {
      assert z == Zeros(k);
      ZerosValue(k);
    } else {
      var n := |s| - 1;
      assert z[..|z| - 1] == Zeros(k) + s[..n];
      LeadingZerosValue(k, s[..n]);
    }
  }

  /** `int()` accepts any number of leading zeros before a number ... */
  lemma IntAcceptsLeadingZeros(k: nat, n: nat)
    ensures ParseInt(Zeros(k) + NatToString(n)) == Some(n)
  {
    var t := Zeros(k) + NatToString(n);
    LeadingZerosValue(k, NatToString(n));
    DigitsStripped(t);
    UnsignedDigits(t, false);
  }

  /** A run of digits is its own stripped form. */
  lemma DigitsStripped(t: string)
    requires |t| > 0 && AllDigits(t)
    ensures Strip(t) == t
  {
    assert !IsSpace(t[0]) && !IsSpace(t[|t| - 1]);
    StripTrimmed(t);
  }

  lemma SignedZerosStripped(k: nat, sign: string)
    requires k >= 1 && |sign| <= 1 && (sign == [] || sign[0] in "-+")
    ensures Strip(sign + Zeros(k)) == sign + Zeros(k)
    ensures EvalPadding(sign + Zeros(k))
  {
    var t := sign + Zeros(k);
    assert !IsSpace(t[0]) && !IsSpace(t[|t| - 1]);
    StripTrimmed(t);
    Unpadded(t);
  }

  /** A sign followed by a run of digits reads as the signed number they denote. */
  lemma SignedDigits(sign: char, d: string, literal: bool)
    requires sign == '-' || sign == '+'
    requires |d| > 0 && AllDigits(d) && (!literal || LiteralDigits(d))
    ensures ParseSigned([sign] + d, literal) == Some(if sign == '-' then -(DigitsValue(d) as int) else DigitsValue(d) as int)
  {
    var t := [sign] + d;
    assert t[0] == sign && t[1..] == d;
    SignedText(t, literal);
  }

  lemma SignedText(t: string, literal: bool)
    requires |t| > 1 && (t[0] == '-' || t[0] == '+')
    requires AllDigits(t[1..]) && (!literal || LiteralDigits(t[1..]))
    ensures ParseSigned(t, literal) == Some(if t[0] == '-' then -(DigitsValue(t[1..]) as int) else DigitsValue(t[1..]) as int)
  {
  }

  /** An unsigned run of digits reads as the number it denotes. */
  lemma UnsignedDigits(t: string, literal: bool)
    requires |t| > 0 && AllDigits(t) && (!literal || LiteralDigits(t))
    ensures ParseSigned(t, literal) == Some(DigitsValue(t) as int)
  {
    assert t[0] != '-' && t[0] != '+';
  }

  /** ... which the literal reader, like Python's literal grammar, refuses before a non-zero number ... */
  lemma LiteralRefusesLeadingZeros(k: nat, n: nat)
    requires k >= 1 && n >= 1
    ensures ParseIntLiteral(Zeros(k) + NatToString(n)) == None
  {
    var d := NatToString(n);
    var t := Zeros(k) + d;
    assert !IsSpace(t[0]) && !IsSpace(t[|t| - 1]);
    StripTrimmed(t);
    assert d[0] != '0';
    assert t[k] == d[0];
  }

  /** ... but accepts as zero, signed or not. */
  lemma LiteralAcceptsZeros(k: nat, sign: string)
    requires k >= 1 && sign in {"", "-", "+"}
    ensures ParseIntLiteral(sign + Zeros(k)) == Some(0)
  {
    var t := sign + Zeros(k);
    assert EvalPadding(t) && Strip(t) == t by {
      SignedZerosStripped(k, sign);
    }
    assert ParseSigned(t, true) == Some(0) by {
      SignedZeros(k, sign);
    }
    LiteralOf(t, t, 0);
  }

  lemma SignedZeros(k: nat, sign: string)
    requires k >= 1 && sign in {"", "-", "+"}
    ensures ParseSigned(sign + Zeros(k), true) == Some(0)
  {
    var t := sign + Zeros(k);
    assert LiteralDigits(Zeros(k));
    ZerosValue(k);
    if sign == "" {
      assert t == Zeros(k);
      UnsignedDigits(Zeros(k), true);
    } else {
      assert t == [sign[0]] + Zeros(k);
      SignedDigits(sign[0], Zeros(k), true);
    }
  }

  /** A literal whose padding `eval` accepts reads as what its stripped text reads as. */
  lemma LiteralOf(text: string, t: string, v: int)
    requires EvalPadding(text) && Strip(text) == t && ParseSigned(t, true) == Some(v)
    ensures ParseIntLiteral(text) == Some(v)
  {
  }

  // ---------------------------------------------------------------------------
  // decimals

  /** The exact value of a decimal literal: `units / 10^scale`. */
  datatype Decimal = Decimal(units: int, scale: nat)

  /** One numeric item of a display: a signed integer literal or a decimal-point
      literal (`0.25`, `1.`, `.5`); absent otherwise. */
  function ParseDecimal(text: string): (r: Option<Decimal>)
    ensures ParseIntToken(text).Some? ==> r == Some(Decimal(ParseIntToken(text).value, 0))
  {
    var t := Strip(text);
    var body := if |t| > 0 && (t[0] == '-' || t[0] == '+') then t[1..] else t;
    var parts := Split(body, '.');
    SplitCount(body, '.');
    if |parts| == 1 then
      var n :- ParseSigned(t, true);
      Some(Decimal(n, 0))
    else if |parts| == 2 && |parts[0]| + |parts[1]| > 0 && AllDigits(parts[0] + parts[1]) then
      var m: int := DigitsValue(parts[0] + parts[1]);
      Some(Decimal(if |t| > 0 && t[0] == '-' then -m else m, |parts[1]|))
    else
      None
  }

  // ---------------------------------------------------------------------------
  // list and tuple displays

  /** Reads every text with `item`; absent as soon as one of them is not an item. */
  function ParseAll<T>(texts: seq<string>, item: string -> Option<T>): (r: Option<seq<T>>)
    ensures r.Some? <==> forall i :: 0 <= i < |texts| ==> item(texts[i]).Some?
    ensures r.Some? ==> |r.value| == |texts|
    ensures r.Some? ==> forall i :: 0 <= i < |texts| ==> r.value[i] == item(texts[i]).value
  {
    if |texts| == 0 then Some([])
    else
      var x :- item(texts[0]);
      var xs :- ParseAll(texts[1..], item);
      assert forall i :: 1 <= i < |texts| ==> texts[i] == texts[1..][i - 1];
      Some([x] + xs)
  }

  /** The elements of a list or tuple display given the text between its brackets
      (`bracketed`) or the whole text of a bare tuple: comma-separated items with
      one optional trailing comma, each padded only by whitespace the tokenizer
      skips there; a blank body is the empty display. */
  function ParseItems<T>(body: string, item: string -> Option<T>, bracketed: bool): Option<seq<T>> {
    var pieces := Split(body, ',');
    if !PiecesPadded(pieces, bracketed) then None
    else ParseAll(ItemTexts(pieces), item)
  }

  /** The comma-separated pieces that hold items: none for a blank body, all but
      the last after a trailing comma, and otherwise every one. */
  function ItemTexts(pieces: seq<string>): seq<string>
    requires |pieces| >= 1
  {
    if |pieces| == 1 && IsBlank(pieces[0]) then []
    else if |pieces| > 1 && IsBlank(Last(pieces)) then pieces[..|pieces| - 1]
    else pieces
  }

  /** What `eval(text)` yields when the text, surrounding whitespace aside, is a
      sequence of items: a list display `[...]`, a parenthesised tuple, or a bare
      comma-separated tuple. A parenthesised body without a comma is a tuple only
      when blank (`(5)` is the number 5), and a text without brackets is a tuple
      only when it holds a comma; anything else is absent. */
  function ParseSequence<T>(text: string, item: string -> Option<T>): Option<seq<T>> {
    var t := Strip(text);
    if !EvalPadding(text) then None
    else if |t| >= 2 && t[0] == '[' && t[|t| - 1] == ']' then ParseItems(t[1..|t| - 1], item, true)
    else if |t| >= 2 && t[0] == '(' && t[|t| - 1] == ')' then
      var body := t[1..|t| - 1];
      if ',' in body || IsBlank(body) then ParseItems(body, item, true) else None
    else if ',' in t then ParseItems(t, item, false)
    else None
  }

  /** `ParseAll` returns exactly the items when every text reads as the item at its position. */
  lemma ParseAllPointwise<T>(texts: seq<string>, item: string -> Option<T>, xs: seq<T>)
    requires |texts| == |xs|
    requires forall i :: 0 <= i < |texts| ==> item(texts[i]) == Some(xs[i])
    ensures ParseAll(texts, item) == Some(xs)
  {
    var r := ParseAll(texts, item);
    assert r.Some?;
    assert r.value == xs;
  }

  function IntTexts(xs: seq<int>): (texts: seq<string>)
    ensures |texts| == |xs|
    ensures forall i :: 0 <= i < |xs| ==> texts[i] == IntToString(xs[i])
  {
    seq(|xs|, i requires 0 <= i < |xs| => IntToString(xs[i]))
  }

  /** A rendered integer is a non-empty trimmed text without commas that both readers read back. */
  lemma IntTextFacts(n: int)
    ensures ',' !in IntToString(n) && Trimmed(IntToString(n)) && |IntToString(n)| >= 1
    ensures ParseInt(IntToString(n)) == Some(n)
    ensures ParseIntLiteral(IntToString(n)) == Some(n)
    ensures ParseIntToken(IntToString(n)) == Some(n)
    ensures ItemPadding(IntToString(n), false)
  {
    IntTextCommaFree(n);
    IntTextReads(n);
  }

  lemma IntTextCommaFree(n: int)
    ensures ',' !in IntToString(n) && Trimmed(IntToString(n)) && |IntToString(n)| >= 1
  {
    IntToStringShape(n);
    var s := IntToString(n);
    assert forall i :: 0 <= i < |s| ==> s[i] != ',';
  }

  lemma IntTextReads(n: int)
    ensures ParseInt(IntToString(n)) == Some(n)
    ensures ParseIntToken(IntToString(n)) == Some(n)
    ensures ParseIntLiteral(IntToString(n)) == Some(n)
    ensures ItemPadding(IntToString(n), false)
  {
    var s := IntToString(n);
    IntRoundTrip(n, "", "");
    assert "" + s + "" == s;
    IntToStringShape(n);
    Unpadded(s);
  }

  lemma IntTextsFacts(xs: seq<int>)
    ensures forall i :: 0 <= i < |xs| ==> ',' !in IntTexts(xs)[i]
    ensures forall i :: 0 <= i < |xs| ==> ParseInt(IntTexts(xs)[i]) == Some(xs[i])
    ensures forall i :: 0 <= i < |xs| ==> ParseIntLiteral(IntTexts(xs)[i]) == Some(xs[i])
    ensures forall i :: 0 <= i < |xs| ==> ParseIntToken(IntTexts(xs)[i]) == Some(xs[i])
    ensures forall i :: 0 <= i < |xs| ==> ItemPadding(IntTexts(xs)[i], false)
    ensures forall i :: 0 <= i < |xs| ==> Trimmed(IntTexts(xs)[i]) && |IntTexts(xs)[i]| >= 1
  {
    forall i | 0 <= i < |xs|
      ensures ',' !in IntTexts(xs)[i] && Trimmed(IntTexts(xs)[i]) && |IntTexts(xs)[i]| >= 1
      ensures ParseInt(IntTexts(xs)[i]) == Some(xs[i])
      ensures ParseIntLiteral(IntTexts(xs)[i]) == Some(xs[i])
      ensures ParseIntToken(IntTexts(xs)[i]) == Some(xs[i])
      ensures ItemPadding(IntTexts(xs)[i], false)
    {
      IntTextFacts(xs[i]);
    }
  }

  lemma IntTextsShape(xs: seq<int>)
    ensures forall i :: 0 <= i < |xs| ==> ',' !in IntTexts(xs)[i]
    ensures forall i :: 0 <= i < |xs| ==> Trimmed(IntTexts(xs)[i]) && |IntTexts(xs)[i]| >= 1
  {
    forall i | 0 <= i < |xs|
      ensures ',' !in IntTexts(xs)[i] && Trimmed(IntTexts(xs)[i]) && |IntTexts(xs)[i]| >= 1
    {
      IntTextCommaFree(xs[i]);
    }
  }

  /** The integers rendered and joined by commas, `1,-2,3`. */
  function IntsText(xs: seq<int>): string
    requires |xs| >= 1
  {
    Join(IntTexts(xs), ',')
  }

  /** A rendered integer list holds only digits, minus signs and commas. */
  lemma IntsTextFree(values: seq<int>, c: char)
    requires |values| >= 1
    requires c != ',' && c != '-' && !IsDigit(c)
    ensures c !in IntsText(values)
  {
    forall i | 0 <= i < |values|
      ensures c !in IntTexts(values)[i]
    {
      IntToStringShape(values[i]);
    }
    JoinFree(IntTexts(values), ',', c);
  }

  /** A rendered integer list has no surrounding whitespace. */
  lemma IntsTextTrimmed(xs: seq<int>)
    requires |xs| >= 1
    ensures |IntsText(xs)| >= 1 && Trimmed(IntsText(xs))
  {
    IntTextsShape(xs);
    JoinTrimmed(IntTexts(xs), ',');
  }

  /** Splitting a rendered integer list on commas and reading each field gives the list back. */
  lemma IntsTextRoundTrip(xs: seq<int>)
    requires |xs| >= 1
    ensures Split(IntsText(xs), ',') == IntTexts(xs)
    ensures ParseAll(Split(IntsText(xs), ','), ParseInt) == Some(xs)
    ensures ParseAll(Split(IntsText(xs), ','), ParseIntToken) == Some(xs)
    ensures forall i :: 0 <= i < |xs| ==> ItemPadding(Split(IntsText(xs), ',')[i], false)
  {
    IntTextsFacts(xs);
    SplitJoin(IntTexts(xs), ',');
    ParseAllPointwise(IntTexts(xs), ParseInt, xs);
    ParseAllPointwise(IntTexts(xs), ParseIntToken, xs);
  }

  /** The body of a display of rendered integers reads back as those integers,
      in brackets or not. */
  lemma ItemsRoundTrip(xs: seq<int>, bracketed: bool)
    requires |xs| >= 1
    ensures ParseItems(IntsText(xs), ParseIntToken, bracketed) == Some(xs)
  {
    IntsTextRoundTrip(xs);
    LastIntNotBlank(xs);
    var pieces := Split(IntsText(xs), ',');
    forall i | 0 <= i < |pieces|
      ensures ItemPadding(pieces[i], bracketed)
    {
      assert ItemPadding(pieces[i], false);
    }
    assert PiecesPadded(pieces, bracketed);
    ItemsWithoutTrailingComma(IntsText(xs), ParseIntToken, bracketed);
  }

  lemma LastIntNotBlank(xs: seq<int>)
    requires |xs| >= 1
    ensures !IsBlank(Last(Split(IntsText(xs), ',')))
  {
    IntsTextPieces(xs);
    LastIntText(xs);
    LastPieceNotBlank(IntsText(xs), IntTexts(xs));
  }

  lemma IntsTextPieces(xs: seq<int>)
    requires |xs| >= 1
    ensures Split(IntsText(xs), ',') == IntTexts(xs)
  {
    IntTextsShape(xs);
    SplitJoin(IntTexts(xs), ',');
  }

  lemma LastIntText(xs: seq<int>)
    requires |xs| >= 1
    ensures Trimmed(Last(IntTexts(xs))) && Last(IntTexts(xs)) != []
  {
    assert Last(IntTexts(xs)) == IntToString(xs[|xs| - 1]);
    IntTextCommaFree(xs[|xs| - 1]);
  }

  lemma LastPieceNotBlank(body: string, pieces: seq<string>)
    requires Split(body, ',') == pieces
    requires Trimmed(Last(pieces)) && Last(pieces) != []
    ensures !IsBlank(Last(Split(body, ',')))
  {
    StripTrimmed(Last(pieces));
  }

  /** Without a trailing comma every comma-separated piece is an item. */
  lemma ItemsWithoutTrailingComma<T>(body: string, item: string -> Option<T>, bracketed: bool)
    requires !IsBlank(Last(Split(body, ',')))
    requires PiecesPadded(Split(body, ','), bracketed)
    ensures ParseItems(body, item, bracketed) == ParseAll(Split(body, ','), item)
  {
    ItemTextsAll(Split(body, ','));
  }

  lemma ItemTextsAll(pieces: seq<string>)
    requires |pieces| >= 1 && !IsBlank(Last(pieces))
    ensures ItemTexts(pieces) == pieces
  {
    assert |pieces| == 1 ==> pieces[0] == Last(pieces);
  }

  /** Two or more rendered integers hold a comma. */
  lemma IntsTextComma(xs: seq<int>)
    requires |xs| >= 2
    ensures ',' in IntsText(xs)
  {
    var texts := IntTexts(xs);
    assert IntsText(xs) == texts[0] + [','] + Join(texts[1..], ',');
    assert IntsText(xs)[|texts[0]|] == ',';
  }

  /** Rendered integers between brackets read back as a list exactly when the
      whitespace around the display is whitespace `eval` accepts. */
  lemma ListRoundTrip(xs: seq<int>, lead: string, trail: string)
    requires |xs| >= 1 && AllSpace(lead) && AllSpace(trail)
    ensures ParseSequence(lead + "[" + IntsText(xs) + "]" + trail, ParseIntToken)
         == if EvalLead(lead) && Gap(trail, true) then Some(xs) else None
  {
    Enclosed('[', IntsText(xs), ']', lead, trail);
    ItemsRoundTrip(xs, true);
  }

  /** A text between two non-space delimiters, padded by whitespace, strips to
      the delimited text, whose inside is the text again. */
  lemma Enclosed(open: char, body: string, close: char, lead: string, trail: string)
    requires AllSpace(lead) && AllSpace(trail) && !IsSpace(open) && !IsSpace(close)
    ensures var t := [open] + body + [close];
      Strip(lead + [open] + body + [close] + trail) == t && t[1..|t| - 1] == body
    ensures EvalPadding(lead + [open] + body + [close] + trail) <==> EvalLead(lead) && Gap(trail, true)
  {
    var t := [open] + body + [close];
    assert lead + [open] + body + [close] + trail == lead + t + trail;
    assert Trimmed(t);
    StripPadded(lead, t, trail);
    PadsOf(lead, t, trail);
    assert t[1..|t| - 1] == body;
  }

  /** Two or more rendered integers between parentheses, possibly padded, read back as a tuple. */
  lemma TupleRoundTrip(xs: seq<int>, lead: string, trail: string)
    requires |xs| >= 2 && AllSpace(lead) && AllSpace(trail)
    ensures ParseSequence(lead + "(" + IntsText(xs) + ")" + trail, ParseIntToken)
         == if EvalLead(lead) && Gap(trail, true) then Some(xs) else None
  {
    var body := IntsText(xs);
    var text := lead + "(" + body + ")" + trail;
    assert Strip(text) == "(" + body + ")" && (EvalPadding(text) <==> EvalLead(lead) && Gap(trail, true)) by {
      Enclosed('(', body, ')', lead, trail);
      assert lead + ['('] + body + [')'] + trail == text;
    }
    IntsTextComma(xs);
    ParenSequence(text, body, ParseIntToken);
    ItemsRoundTrip(xs, true);
  }

  /** A text that strips to a parenthesised body holding a comma is read as the
      items of that body, provided its padding is accepted. */
  lemma ParenSequence<T>(text: string, body: string, item: string -> Option<T>)
    requires Strip(text) == "(" + body + ")" && ',' in body
    ensures ParseSequence(text, item) == if EvalPadding(text) then ParseItems(body, item, true) else None
  {
    var t := Strip(text);
    assert t[0] == '(' && t[|t| - 1] == ')' && t[1..|t| - 1] == body;
  }

  /** Two or more rendered integers without brackets, possibly padded, read back as a tuple. */
  lemma BareTupleRoundTrip(xs: seq<int>, lead: string, trail: string)
    requires |xs| >= 2 && AllSpace(lead) && AllSpace(trail)
    ensures ParseSequence(lead + IntsText(xs) + trail, ParseIntToken)
         == if EvalLead(lead) && Gap(trail, true) then Some(xs) else None
  {
    var t := IntsText(xs);
    IntsTextTrimmed(xs);
    IntsTextRoundTrip(xs);
    StripPadded(lead, t, trail);
    PadsOf(lead, t, trail);
    IntsTextFree(xs, '[');
    IntsTextFree(xs, '(');
    assert t[0] != '[' && t[0] != '(';
    IntsTextComma(xs);
    ItemsRoundTrip(xs, false);
  }

  /** Two rendered integers with a line break after the comma between them. */
  function BrokenPair(a: int, b: int): string {
    IntToString(a) + "," + ("\n" + IntToString(b))
  }

  lemma BrokenPieces(a: int, b: int)
    ensures Split(BrokenPair(a, b), ',') == [IntToString(a), "\n" + IntToString(b)]
    ensures LeadPad("\n" + IntToString(b)) == "\n" && TrailPad("\n" + IntToString(b)) == []
    ensures ParseIntToken("\n" + IntToString(b)) == Some(b) && !IsBlank("\n" + IntToString(b))
    ensures ParseIntToken(IntToString(a)) == Some(a) && ItemPadding(IntToString(a), true)
  {
    var x := IntToString(a);
    var y := IntToString(b);
    var second := "\n" + y;
    IntTextFacts(a);
    IntTextFacts(b);
    Unpadded(x);
    assert ',' !in second;
    assert BrokenPair(a, b) == x + [','] + second;
    SplitTwo(x, ',', second);
    assert "\n" + y + [] == second;
    PadsOf("\n", y, []);
    IntRoundTrip(b, "\n", []);
    StripPadded("\n", y, []);
  }

  lemma BrokenPairShape(a: int, b: int)
    ensures var body := BrokenPair(a, b);
      Trimmed(body) && body != [] && ',' in body && body[0] != '[' && body[0] != '('
  {
    var x := IntToString(a);
    var y := IntToString(b);
    var body := BrokenPair(a, b);
    IntToStringShape(a);
    IntToStringShape(b);
    assert body[0] == x[0];
    assert body[|body| - 1] == y[|y| - 1];
    assert body[|x|] == ',';
  }

  /** The pair's items read back inside brackets and are refused in a bare tuple. */
  lemma BrokenItems(a: int, b: int)
    ensures ParseItems(BrokenPair(a, b), ParseIntToken, true) == Some([a, b])
    ensures ParseItems(BrokenPair(a, b), ParseIntToken, false) == None
  {
    var body := BrokenPair(a, b);
    BrokenPieces(a, b);
    var pieces := Split(body, ',');
    var second := "\n" + IntToString(b);
    assert pieces[1] == second;
    assert ItemPadding(second, true) && !ItemPadding(second, false) by {
      assert Gap("\n", true) && !Gap("\n", false);
    }
    TwoItems(body, pieces, ParseIntToken, true, a, b);
    ItemRefused(body, ParseIntToken, false, 1);
  }

  /** Two well-padded pieces, the last not blank, read as their two items. */
  lemma TwoItems<T>(body: string, pieces: seq<string>, item: string -> Option<T>, bracketed: bool, x: T, y: T)
    requires Split(body, ',') == pieces && |pieces| == 2
    requires ItemPadding(pieces[0], bracketed) && ItemPadding(pieces[1], bracketed)
    requires !IsBlank(pieces[1])
    requires item(pieces[0]) == Some(x) && item(pieces[1]) == Some(y)
    ensures ParseItems(body, item, bracketed) == Some([x, y])
  {
    PaddedPair(pieces, bracketed);
    assert !IsBlank(Last(pieces)) by {
      assert Last(pieces) == pieces[1];
    }
    ItemsWithoutTrailingComma(body, item, bracketed);
    ReadPair(pieces, item, x, y);
  }

  lemma PaddedPair(pieces: seq<string>, bracketed: bool)
    requires |pieces| == 2 && ItemPadding(pieces[0], bracketed) && ItemPadding(pieces[1], bracketed)
    ensures PiecesPadded(pieces, bracketed)
  {
    forall i | 0 <= i < |pieces|
      ensures ItemPadding(pieces[i], bracketed)
    {
      if i == 1 {
        assert pieces[i] == pieces[1];
      }
    }
  }

  lemma ReadPair<T>(pieces: seq<string>, item: string -> Option<T>, x: T, y: T)
    requires |pieces| == 2 && item(pieces[0]) == Some(x) && item(pieces[1]) == Some(y)
    ensures ParseAll(pieces, item) == Some([x, y])
  {
    var xs := [x, y];
    forall i | 0 <= i < |pieces|
      ensures item(pieces[i]) == Some(xs[i])
    {
      if i == 1 {
        assert pieces[i] == pieces[1] && xs[i] == y;
      }
    }
    ParseAllPointwise(pieces, item, xs);
  }

  /** A single piece padded by whitespace the tokenizer does not skip there
      makes the whole body unreadable. */
  lemma ItemRefused<T>(body: string, item: string -> Option<T>, bracketed: bool, i: nat)
    requires i < |Split(body, ',')| && !ItemPadding(Split(body, ',')[i], bracketed)
    ensures ParseItems(body, item, bracketed) == None
  {
    assert !PiecesPadded(Split(body, ','), bracketed);
  }

  /** A line break between two items is skipped inside brackets, where lines are
      joined ... */
  lemma ListLineBreak(a: int, b: int)
    ensures ParseSequence("[" + BrokenPair(a, b) + "]", ParseIntToken) == Some([a, b])
  {
    var body := BrokenPair(a, b);
    BrokenItems(a, b);
    Enclosed('[', body, ']', [], []);
    assert [] + ['['] + body + [']'] + [] == "[" + body + "]";
    EvalLeadBlanks([]);
  }

  /** ... but ends the expression in a bare tuple. */
  lemma BareLineBreak(a: int, b: int)
    ensures ParseSequence(BrokenPair(a, b), ParseIntToken) == None
  {
    var body := BrokenPair(a, b);
    BrokenPairShape(a, b);
    StripTrimmed(body);
    Unpadded(body);
    BrokenItems(a, b);
  }
}
