/**
  The inside of a replacement field: argument ids and format specifiers.
 */
module FormatSpecs {
  import opened Decimal
  import opened FormatParse
  import Utf8

  datatype Option<+T> = None | Some(value: T)

  // -------------------------------------------------------------- argument ids

  /** How a replacement field names an argument. */
  datatype ArgId = Automatic | Index(index: nat) | Name(name: string)

  predicate IsNameStart(c: char) { 'a' <= c <= 'z' || 'A' <= c <= 'Z' || c == '_' }
  predicate IsNameChar(c: char) { IsNameStart(c) || IsDigit(c) }

  const INT_MAX: nat := 0x7FFF_FFFF

  /** The length of the run of digits that s starts with. */
  function DigitRun(s: string): (n: nat)
    ensures n <= |s| && AllDigits(s[..n]) && (n < |s| ==> !IsDigit(s[n])) && (s != [] && IsDigit(s[0]) ==> n > 0)
  {
    if s == [] || !IsDigit(s[0]) then 0 else 1 + DigitRun(s[1..])
  }

  /** A decimal number at the start of s and its length; too big for an int is an error. */
  function NonNegativeInt(s: string): (r: Result<(nat, nat)>)
    requires s != [] && IsDigit(s[0])
    ensures r.Ok? ==> 1 <= r.value.1 <= |s| && AllDigits(s[..r.value.1])
    ensures r.Ok? ==> r.value.0 == DigitsVal(s[..r.value.1]) <= INT_MAX
  {
    var n := DigitRun(s);
    DigitsBound(s[..n]);
    if DigitsVal(s[..n]) > INT_MAX then Err(NumberTooBig) else Ok((DigitsVal(s[..n]), n))
  }

  /** The length of the run of name characters that s starts with. */
  function NameRun(s: string): (n: nat)
    ensures n <= |s| && forall k :: 0 <= k < n ==> IsNameChar(s[k])
  {
    if s == [] || !IsNameChar(s[0]) then 0 else 1 + NameRun(s[1..])
  }

  /** What an id of a given length at the start of s is. */
  predicate IsIdAt(s: string, id: ArgId, n: nat)
  {
    && n <= |s|
    && match id
       case Automatic => n == 0 && n < |s| && (s[0] == '}' || s[0] == ':')
       case Index(i) => n > 0 && AllDigits(s[..n]) && i == DigitsVal(s[..n]) <= INT_MAX
       case Name(name) =>
         name == s[..n] && n > 0 && IsNameStart(s[0]) && forall k :: 0 <= k < n ==> IsNameChar(s[k])
  }

  /** An argument id at the start of s and its length. */
  function ParseArgId(s: string): (r: Result<(ArgId, nat)>)
    requires s != []
    ensures r.Ok? ==> IsIdAt(s, r.value.0, r.value.1)
  {
    var c := s[0];
    if c == '}' || c == ':' then Ok((Automatic, 0))
    else if IsDigit(c) then
      assert s[..1][..0] == [];
      var (index, n) :- if c != '0' then NonNegativeInt(s) else Ok((0, 1));
      if n == |s| || (s[n] != '}' && s[n] != ':') then Err(InvalidFormat) else Ok((Index(index), n))
    else if !IsNameStart(c) then Err(InvalidFormat)
    else
      var n := 1 + NameRun(s[1..]);
      Ok((Name(s[..n]), n))
  }

  // --------------------------------------------------------- format specifiers

  datatype Align = NoAlign | Left | Right | Center | Numeric
  datatype Sign = NoSign | Plus | Minus | Space
  datatype Count = Absent | Literal(count: nat) | Dynamic(arg: ArgId)

  /** What was found in s[..n], in the order in which it is reported, and the error that ended it. */
  datatype Syntax = Syntax(fill: Option<string>, align: Align, sign: Sign, alt: bool, zero: bool,
                           width: Count, precision: Count, kind: Option<char>, error: Option<Error>, n: nat)

  const BLANK := Syntax(None, NoAlign, NoSign, false, false, Absent, Absent, None, None, 0)

  /** The length of the code point that starts with a given code unit, as its lead byte has it. */
  function CodePointLength(c: char): (n: nat)
    ensures 1 <= n <= 4
  {
    if c as int < 256 then Utf8.CodePointLength(c as int) else 1
  }

  function AlignOf(c: char): Align
  {
    if c == '<' then Left else if c == '>' then Right else if c == '^' then Center else NoAlign
  }

  /** Fill and alignment; the fill character is told by the alignment after it. */
  function ParseAlign(s: string): (r: Syntax)
    requires s != []
    ensures r.align != Numeric
  {
    var p := CodePointLength(s[0]);
    if p < |s| && AlignOf(s[p]) != NoAlign then
      if s[0] == '{' then BLANK.(error := Some(InvalidFill))
      else BLANK.(fill := Some(s[..p]), align := AlignOf(s[p]), n := p + 1)
    else if AlignOf(s[0]) != NoAlign then BLANK.(align := AlignOf(s[0]), n := 1)
    else BLANK
  }

  function ParseSign(y: Syntax, s: string): (r: Syntax)
    requires y.n < |s|
    ensures r.align == y.align
  {
    var c := s[y.n];
    if c == '+' then y.(sign := Plus, n := y.n + 1)
    else if c == '-' then y.(sign := Minus, n := y.n + 1)
    else if c == ' ' then y.(sign := Space, n := y.n + 1)
    else y
  }

  function ParseHash(y: Syntax, s: string): (r: Syntax)
    requires y.n < |s|
    ensures r.align == y.align
  {
    if s[y.n] == '#' then y.(alt := true, n := y.n + 1) else y
  }

  function ParseZero(y: Syntax, s: string): (r: Syntax)
    requires y.n < |s|
    ensures r.align == y.align
  {
    if s[y.n] == '0' then y.(zero := true, n := y.n + 1) else y
  }

  /** A dynamic count after its opening brace: the id, if any, and the position it ends at. */
  datatype Braced = Braced(id: Option<ArgId>, error: Option<Error>, n: nat)

  function ParseBraced(s: string, from: nat): (b: Braced)
    requires from <= |s|
    ensures b.n <= |s|
  {
    if from == |s| then Braced(None, Some(InvalidFormat), from)
    else
      match ParseArgId(s[from..])
      case Err(e) => Braced(None, Some(e), from)
      case Ok((id, n)) =>
        if from + n == |s| || s[from + n] != '}' then Braced(Some(id), Some(InvalidFormat), from + n)
        else Braced(Some(id), None, from + n + 1)
  }

  function BracedCount(b: Braced): Count
  {
    if b.id.Some? then Dynamic(b.id.value) else Absent
  }

  function ParseWidth(y: Syntax, s: string): (r: Syntax)
    requires y.n < |s|
    ensures r.align == y.align
  {
    if IsDigit(s[y.n]) then
      match NonNegativeInt(s[y.n..])
      case Err(e) => y.(error := Some(e))
      case Ok((width, n)) => y.(width := Literal(width), n := y.n + n)
    else if s[y.n] == '{' then
      var b := ParseBraced(s, y.n + 1);
      y.(width := BracedCount(b), error := b.error, n := b.n)
    else y
  }

  function ParsePrecision(y: Syntax, s: string): (r: Syntax)
    requires y.n < |s|
    ensures r.align == y.align
  {
    var at := y.n + 1;
    if s[y.n] != '.' then y
    else if at < |s| && IsDigit(s[at]) then
      match NonNegativeInt(s[at..])
      case Err(e) => y.(error := Some(e))
      case Ok((precision, n)) => y.(precision := Literal(precision), n := at + n)
    else if at < |s| && s[at] == '{' then
      var b := ParseBraced(s, at + 1);
      y.(precision := BracedCount(b), error := b.error, n := b.n)
    else y.(error := Some(MissingPrecision), n := at)
  }

  function ParseKind(y: Syntax, s: string): (r: Syntax)
    requires y.n < |s|
    ensures r.align == y.align
  {
    if s[y.n] != '}' then y.(kind := Some(s[y.n]), n := y.n + 1) else y
  }

  predicate Unfinished(y: Syntax, s: string) { y.error.None? && y.n < |s| }

  /** All the specifiers at the start of s; only the zero flag asks for numeric alignment. */
  function ParseSpecs(s: string): (y: Syntax)
    ensures y.align != Numeric
  {
    if s == [] then BLANK
    else
      var y1 := ParseAlign(s);
      var y2 := if Unfinished(y1, s) then ParseSign(y1, s) else y1;
      var y3 := if Unfinished(y2, s) then ParseHash(y2, s) else y2;
      var y4 := if Unfinished(y3, s) then ParseZero(y3, s) else y3;
      var y5 := if Unfinished(y4, s) then ParseWidth(y4, s) else y4;
      var y6 := if Unfinished(y5, s) then ParsePrecision(y5, s) else y5;
      if Unfinished(y6, s) then ParseKind(y6, s) else y6
  }

  predicate IsAsciiLetter(c: char) { 'a' <= c <= 'z' || 'A' <= c <= 'Z' }

  /** A single letter before the closing brace is a type, whichever way it is parsed. */
  lemma LetterIsKind(s: string)
    requires |s| > 1 && s[1] == '}' && IsAsciiLetter(s[0])
    ensures ParseSpecs(s) == BLANK.(kind := Some(s[0]), n := 1)
  {
    assert ParseAlign(s) == BLANK;
    assert ParseSign(BLANK, s) == ParseHash(BLANK, s) == ParseZero(BLANK, s) == BLANK;
    assert ParseWidth(BLANK, s) == ParsePrecision(BLANK, s) == BLANK;
  }

  // -------------------------------------------------------- replacement fields

  /** A handler that a field reports its argument id, and then its specifiers, to. */
  datatype Handler<!H> = Handler(
    onText: (H, string) -> Result<H>,
    onArgId: (H, ArgId) -> Result<(H, int)>,
    onReplacement: (H, int) -> Result<H>,
    onSpecs: (H, int, string) -> Result<(H, nat)>)

  /** The field at the start of s: the new state and the length of the field. */
  function ParseReplacement<H>(handler: Handler<H>, h: H, s: string): (r: Result<(H, nat)>)
    requires s != [] && s[0] == '{'
    ensures r.Ok? ==> 2 <= r.value.1 <= |s|
  {
    if |s| == 1 then Err(InvalidFormat)
    else if s[1] == '}' then
      var (h1, id) :- handler.onArgId(h, Automatic);
      var h2 :- handler.onReplacement(h1, id);
      Ok((h2, 2))
    else if s[1] == '{' then
      var h1 :- handler.onText(h, "{");
      Ok((h1, 2))
    else
      var (argId, n) :- ParseArgId(s[1..]);
      var (h1, id) :- handler.onArgId(h, argId);
      AfterArgId(handler, h1, id, s, 1 + n)
  }

  function AfterArgId<H>(handler: Handler<H>, h: H, id: int, s: string, at: nat): (r: Result<(H, nat)>)
    requires 1 <= at <= |s|
    ensures r.Ok? ==> 2 <= r.value.1 <= |s|
  {
    if at == |s| then Err(MissingBrace)
    else if s[at] == '}' then
      var h1 :- handler.onReplacement(h, id);
      Ok((h1, at + 1))
    else if s[at] == ':' then
      var (h1, m) :- handler.onSpecs(h, id, s[at + 1..]);
      if at + 1 + m >= |s| || s[at + 1 + m] != '}' then Err(UnknownSpecifier) else Ok((h1, at + m + 2))
    else Err(MissingBrace)
  }

  /** The same handler, as the parser of whole strings sees it. */
  function AsEvents<H>(handler: Handler<H>): Events<H>
  {
    Events(handler.onText,
           (h: H, s: string) => if s != [] && s[0] == '{' then ParseReplacement(handler, h, s) else Err(InvalidFormat))
  }
}
