/**
  Format specifiers written out in their notation parse as themselves.
 */
module SpecsRoundTrip {
  import opened Decimal
  import opened DecimalText
  import opened FormatParse
  import opened FormatSpecs
  import Utf8

  // ----------------------------------------------------------------- notation

  function Digits(n: nat): (s: string)
    ensures s != [] && AllDigits(s)
  {
    if n < 10 then [DigitChar(n)] else Digits(n / 10) + [DigitChar(n % 10)]
  }

  /** An id that can be written: a number that fits an int, or a name. */
  predicate Nameable(id: ArgId)
  {
    match id
    case Automatic => true
    case Index(i) => i <= INT_MAX
    case Name(name) => name != [] && IsNameStart(name[0]) && forall k :: 0 <= k < |name| ==> IsNameChar(name[k])
  }

  function ShowId(id: ArgId): string
  {
    match id
    case Automatic => ""
    case Index(i) => Digits(i)
    case Name(name) => name
  }

  function ShowCount(count: Count): string
  {
    match count
    case Absent => ""
    case Literal(n) => Digits(n)
    case Dynamic(id) => "{" + ShowId(id) + "}"
  }

  predicate Countable(count: Count)
  {
    match count
    case Absent => true
    case Literal(n) => n <= INT_MAX
    case Dynamic(id) => Nameable(id)
  }

  function ShowAlign(y: Syntax): string
  {
    (if y.fill.Some? then y.fill.value else "")
    + (match y.align case Left => "<" case Right => ">" case Center => "^" case _ => "")
  }

  function ShowSign(sign: Sign): string
  {
    match sign case NoSign => "" case Plus => "+" case Minus => "-" case Space => " "
  }

  function ShowPrecision(count: Count): string
  {
    if count.Absent? then "" else "." + ShowCount(count)
  }

  function ShowKind(kind: Option<char>): string { if kind.Some? then [kind.value] else "" }

  /** Everything after fill and alignment. */
  function ShowRest(y: Syntax): string
  {
    ShowSign(y.sign) + ((if y.alt then "#" else "") + ((if y.zero then "0" else "")
      + (ShowCount(y.width) + (ShowPrecision(y.precision) + ShowKind(y.kind)))))
  }

  function Show(y: Syntax): string { ShowAlign(y) + ShowRest(y) }

  /** Specifiers that have a notation: a fill needs an alignment, and a width is not zero. */
  predicate Writable(y: Syntax)
  {
    && y.error.None? && y.n == 0 && y.align != Numeric
    && (y.fill.Some? ==> y.align != NoAlign && y.fill.value != [] && y.fill.value[0] != '{'
                         && |y.fill.value| == CodePointLength(y.fill.value[0]))
    && Countable(y.width) && y.width != Literal(0) && Countable(y.precision)
    && (y.kind.Some? ==> IsAsciiLetter(y.kind.value))
  }

  // ---------------------------------------------------------------- numbers

  lemma {:induction false} DigitsSpelled(n: nat)
    ensures Spelled(n, Digits(n))
  {
    if n < 10 {
      OneVal(n);
    } else {
      DigitsSpelled(n / 10);
      DigitsSnoc(Digits(n / 10), DigitChar(n % 10));
    }
  }

  /** A number in front of something else. */
  lemma ReadNumber(n: nat, rest: string)
    requires n <= INT_MAX && (rest == [] || !IsDigit(rest[0]))
    ensures NonNegativeInt(Digits(n) + rest) == Ok((n, |Digits(n)|))
  {
    DigitsSpelled(n);
    ReadsBack(n, Digits(n), rest);
  }

  // ---------------------------------------------------------------------- ids

  lemma {:induction false} NameRunIs(s: string, n: nat)
    requires n <= |s| && (forall k :: 0 <= k < n ==> IsNameChar(s[k])) && (n < |s| ==> !IsNameChar(s[n]))
    ensures NameRun(s) == n
    decreases n
  {
    if n > 0 {
      NameRunIs(s[1..], n - 1);
    }
  }

  lemma ReadName(name: string, rest: string)
    requires Nameable(Name(name)) && rest != [] && !IsNameChar(rest[0])
    ensures ParseArgId(name + rest) == Ok((Name(name), |name|))
  {
    var s := name + rest;
    assert s[0] == name[0];
    assert forall k :: 0 <= k < |name| - 1 ==> s[1..][k] == name[k + 1];
    NameRunIs(s[1..], |name| - 1);
    assert s[..|name|] == name;
  }

  lemma ReadIndex(i: nat, rest: string)
    requires i <= INT_MAX && rest != [] && (rest[0] == '}' || rest[0] == ':')
    ensures ParseArgId(Digits(i) + rest) == Ok((Index(i), |Digits(i)|))
  {
    DigitsSpelled(i);
    var s := Digits(i) + rest;
    assert s[0] == Digits(i)[0] && s[|Digits(i)|] == rest[0];
    if i > 0 {
      ReadNumber(i, rest);
    }
  }

  /** An argument id in front of a brace or a colon. */
  lemma ReadId(id: ArgId, rest: string)
    requires Nameable(id) && rest != [] && (rest[0] == '}' || rest[0] == ':')
    ensures ParseArgId(ShowId(id) + rest) == Ok((id, |ShowId(id)|))
  {
    match id
    case Automatic => assert ShowId(id) + rest == rest;
    case Index(i) => ReadIndex(i, rest);
    case Name(name) => ReadName(name, rest);
  }

  lemma ReadBraced(id: ArgId, s: string, from: nat, rest: string)
    requires Nameable(id) && from <= |s| && s[from..] == ShowId(id) + ("}" + rest)
    ensures ParseBraced(s, from) == Braced(Some(id), None, from + |ShowId(id)| + 1)
  {
    ReadId(id, "}" + rest);
    var n := |ShowId(id)|;
    assert s[from + n] == s[from..][n] == '}';
  }

  // ------------------------------------------------------------------- stages

  predicate KindHead(c: char) { IsAsciiLetter(c) || c == '}' }
  predicate PrecisionHead(c: char) { c == '.' || KindHead(c) }
  predicate WidthHead(c: char) { '1' <= c <= '9' || c == '{' || PrecisionHead(c) }
  predicate ZeroHead(c: char) { c == '0' || WidthHead(c) }
  predicate HashHead(c: char) { c == '#' || ZeroHead(c) }
  predicate SignHead(c: char) { c == '+' || c == '-' || c == ' ' || HashHead(c) }

  /** The string from a position on, and what it starts with. */
  predicate Follows(s: string, n: nat, shown: string, tail: string)
  {
    n <= |s| && tail != [] && s[n..] == shown + tail
  }

  lemma Skip(s: string, n: nat, shown: string, tail: string)
    requires Follows(s, n, shown, tail)
    ensures n + |shown| < |s| && s[n + |shown|..] == tail && s[n + |shown|] == tail[0]
    ensures n < |s| && s[n] == (shown + tail)[0]
  {
    assert s[n..][|shown|..] == tail && s[n..][0] == (shown + tail)[0];
  }

  lemma ReadKind(y: Syntax, s: string, kind: Option<char>, tail: string)
    requires Follows(s, y.n, ShowKind(kind), tail) && tail[0] == '}' && y.kind.None?
    requires kind.Some? ==> IsAsciiLetter(kind.value)
    ensures y.n < |s| && ParseKind(y, s) == y.(kind := kind, n := y.n + |ShowKind(kind)|)
  {
    Skip(s, y.n, ShowKind(kind), tail);
  }

  lemma ReadPrecision(y: Syntax, s: string, count: Count, tail: string)
    requires Follows(s, y.n, ShowPrecision(count), tail) && KindHead(tail[0]) && y.precision.Absent? && y.error.None?
    requires Countable(count)
    ensures y.n < |s| && ParsePrecision(y, s) == y.(precision := count, n := y.n + |ShowPrecision(count)|)
  {
    if count.Absent? {
      NoPrecision(y, s, tail);
    } else {
      AfterPoint(s, y.n, ShowCount(count), tail);
      PrecisionAt(y, s, count, tail);
    }
  }

  lemma NoPrecision(y: Syntax, s: string, tail: string)
    requires Follows(s, y.n, "", tail) && KindHead(tail[0])
    ensures y.n < |s| && ParsePrecision(y, s) == y
  {
    Skip(s, y.n, "", tail);
  }

  lemma PrecisionAt(y: Syntax, s: string, count: Count, tail: string)
    requires y.n < |s| && s[y.n] == '.' && Follows(s, y.n + 1, ShowCount(count), tail) && !IsDigit(tail[0])
    requires !count.Absent? && Countable(count) && y.error.None?
    ensures ParsePrecision(y, s) == y.(precision := count, n := y.n + 1 + |ShowCount(count)|)
  {
    match count
    case Literal(n) =>
      ReadNumberAt(s, y.n + 1, n, tail);
      PrecisionLiteral(y, s, n, |Digits(n)|);
    case Dynamic(id) =>
      ReadBracesAt(s, y.n + 1, id, tail);
      PrecisionDynamic(y, s, id, y.n + 3 + |ShowId(id)|);
  }

  lemma AfterPoint(s: string, n: nat, shown: string, tail: string)
    requires n <= |s| && s[n..] == ("." + shown) + tail
    ensures n < |s| && s[n] == '.' && s[n + 1..] == shown + tail
  {
    assert s[n..][0] == '.' && s[n + 1..] == s[n..][1..];
    assert (("." + shown) + tail)[1..] == shown + tail;
  }

  /** A precision after its point, once the count is known to be read. */
  lemma PrecisionLiteral(y: Syntax, s: string, count: nat, length: nat)
    requires y.n + 1 < |s| && s[y.n] == '.' && IsDigit(s[y.n + 1])
    requires NonNegativeInt(s[y.n + 1..]) == Ok((count, length))
    ensures ParsePrecision(y, s) == y.(precision := Literal(count), n := y.n + 1 + length)
  {
  }

  lemma PrecisionDynamic(y: Syntax, s: string, id: ArgId, end: nat)
    requires y.n + 1 < |s| && s[y.n] == '.' && s[y.n + 1] == '{' && y.error.None?
    requires ParseBraced(s, y.n + 2) == Braced(Some(id), None, end)
    ensures ParsePrecision(y, s) == y.(precision := Dynamic(id), n := end)
  {
  }

  lemma WidthLiteral(y: Syntax, s: string, count: nat, length: nat)
    requires y.n < |s| && IsDigit(s[y.n]) && NonNegativeInt(s[y.n..]) == Ok((count, length))
    ensures ParseWidth(y, s) == y.(width := Literal(count), n := y.n + length)
  {
  }

  lemma WidthDynamic(y: Syntax, s: string, id: ArgId, end: nat)
    requires y.n < |s| && s[y.n] == '{' && y.error.None? && ParseBraced(s, y.n + 1) == Braced(Some(id), None, end)
    ensures ParseWidth(y, s) == y.(width := Dynamic(id), n := end)
  {
  }

  /** A number at a position. */
  lemma ReadNumberAt(s: string, at: nat, count: nat, tail: string)
    requires Follows(s, at, Digits(count), tail) && count <= INT_MAX && !IsDigit(tail[0])
    ensures at < |s| && IsDigit(s[at]) && NonNegativeInt(s[at..]) == Ok((count, |Digits(count)|))
  {
    Skip(s, at, Digits(count), tail);
    assert IsDigit(Digits(count)[0]);
    ReadNumber(count, tail);
  }

  /** An id in braces at a position. */
  lemma ReadBracesAt(s: string, at: nat, id: ArgId, tail: string)
    requires Follows(s, at, "{" + ShowId(id) + "}", tail) && Nameable(id)
    ensures at < |s| && s[at] == '{'
    ensures ParseBraced(s, at + 1) == Braced(Some(id), None, at + |ShowId(id)| + 2)
  {
    Skip(s, at, "{" + ShowId(id) + "}", tail);
    AfterOpening(s, at, ShowId(id), tail);
    ReadBraced(id, s, at + 1, tail);
  }

  lemma AfterOpening(s: string, at: nat, shown: string, tail: string)
    requires at <= |s| && s[at..] == ("{" + shown + "}") + tail
    ensures at < |s| && s[at + 1..] == shown + ("}" + tail)
  {
    assert s[at + 1..] == s[at..][1..];
  }

  lemma ReadWidth(y: Syntax, s: string, count: Count, tail: string)
    requires Follows(s, y.n, ShowCount(count), tail) && PrecisionHead(tail[0]) && y.width.Absent? && y.error.None?
    requires Countable(count)
    ensures y.n < |s| && ParseWidth(y, s) == y.(width := count, n := y.n + |ShowCount(count)|)
  {
    match count
    case Absent => NoWidth(y, s, tail);
    case Literal(n) =>
      ReadNumberAt(s, y.n, n, tail);
      WidthLiteral(y, s, n, |Digits(n)|);
    case Dynamic(id) =>
      ReadBracesAt(s, y.n, id, tail);
      WidthDynamic(y, s, id, y.n + 2 + |ShowId(id)|);
  }

  lemma NoWidth(y: Syntax, s: string, tail: string)
    requires Follows(s, y.n, "", tail) && PrecisionHead(tail[0])
    ensures y.n < |s| && ParseWidth(y, s) == y
  {
    Skip(s, y.n, "", tail);
  }

  lemma ReadZero(y: Syntax, s: string, zero: bool, tail: string)
    requires Follows(s, y.n, if zero then "0" else "", tail) && WidthHead(tail[0]) && !y.zero
    ensures y.n < |s| && ParseZero(y, s) == y.(zero := zero, n := y.n + if zero then 1 else 0)
  {
    Skip(s, y.n, if zero then "0" else "", tail);
  }

  lemma ReadHash(y: Syntax, s: string, alt: bool, tail: string)
    requires Follows(s, y.n, if alt then "#" else "", tail) && ZeroHead(tail[0]) && !y.alt
    ensures y.n < |s| && ParseHash(y, s) == y.(alt := alt, n := y.n + if alt then 1 else 0)
  {
    Skip(s, y.n, if alt then "#" else "", tail);
  }

  lemma ReadSign(y: Syntax, s: string, sign: Sign, tail: string)
    requires Follows(s, y.n, ShowSign(sign), tail) && HashHead(tail[0]) && y.sign == NoSign
    ensures y.n < |s| && ParseSign(y, s) == y.(sign := sign, n := y.n + |ShowSign(sign)|)
  {
    Skip(s, y.n, ShowSign(sign), tail);
  }

  lemma ReadAlign(y: Syntax, s: string, tail: string)
    requires Writable(y) && Follows(s, 0, ShowAlign(y), tail) && SignHead(tail[0])
    requires ShowAlign(y) == "" && |tail| > 1 ==> AlignOf(tail[1]) == NoAlign
    ensures s != [] && ParseAlign(s) == BLANK.(fill := y.fill, align := y.align, n := |ShowAlign(y)|)
  {
    Skip(s, 0, ShowAlign(y), tail);
    assert s[0..] == s;
    if y.fill.Some? {
      ReadFill(y, s, tail);
    } else if y.align == NoAlign {
      assert s == tail;
    } else {
      assert s[0] == ShowAlign(y)[0] && s[1] == tail[0];
    }
  }

  lemma ReadFill(y: Syntax, s: string, tail: string)
    requires Writable(y) && y.fill.Some? && s == ShowAlign(y) + tail
    ensures s != [] && ParseAlign(s) == BLANK.(fill := y.fill, align := y.align, n := |ShowAlign(y)|)
  {
    var f := y.fill.value;
    var arrow := ShowAlign(y)[|f|..];
    assert ShowAlign(y) == f + arrow && |arrow| == 1 && AlignOf(arrow[0]) == y.align;
    assert s == f + (arrow + tail);
    assert s[0] == f[0] && s[..|f|] == f && s[|f|] == arrow[0];
  }

  // ---------------------------------------------------------- the round trip

  lemma HeadOf(a: string, b: string)
    requires b != []
    ensures a + b != [] && (a + b)[0] == if a != [] then a[0] else b[0]
  {
  }

  lemma CountHead(count: Count)
    requires count.Literal? ==> count.count > 0
    ensures ShowCount(count) != [] ==> '1' <= ShowCount(count)[0] <= '9' || ShowCount(count)[0] == '{'
  {
    if count.Literal? {
      DigitsSpelled(count.count);
    }
  }

  /** The tails that the stages leave, each starting with something that is not for the stage before. */
  datatype Tails = Tails(hash: string, zero: string, width: string, precision: string, kind: string)

  function TailsOf(y: Syntax, rest: string): Tails
  {
    var kind := ShowKind(y.kind) + rest;
    var precision := ShowPrecision(y.precision) + kind;
    var width := ShowCount(y.width) + precision;
    var zero := (if y.zero then "0" else "") + width;
    Tails((if y.alt then "#" else "") + zero, zero, width, precision, kind)
  }

  lemma TailHeads(y: Syntax, rest: string)
    requires Writable(y) && rest != [] && rest[0] == '}'
    ensures
      var t := TailsOf(y, rest);
      && t.kind != [] && KindHead(t.kind[0])
      && t.precision != [] && PrecisionHead(t.precision[0])
      && t.width != [] && WidthHead(t.width[0])
      && t.zero != [] && ZeroHead(t.zero[0])
      && t.hash != [] && HashHead(t.hash[0])
  {
    var t := TailsOf(y, rest);
    HeadOf(ShowKind(y.kind), rest);
    HeadOf(ShowPrecision(y.precision), t.kind);
    CountHead(y.width);
    HeadOf(ShowCount(y.width), t.precision);
    HeadOf(if y.zero then "0" else "", t.width);
    HeadOf(if y.alt then "#" else "", t.zero);
  }

  lemma Regrouped(a: string, b: string, c: string)
    ensures (a + b) + c == a + (b + c)
  {
  }

  lemma RestSplits(y: Syntax, rest: string)
    ensures ShowRest(y) + rest == ShowSign(y.sign) + TailsOf(y, rest).hash
  {
    var k, p, w := ShowKind(y.kind), ShowPrecision(y.precision), ShowCount(y.width);
    var z, h := if y.zero then "0" else "", if y.alt then "#" else "";
    Regrouped(p, k, rest);
    Regrouped(w, p + k, rest);
    Regrouped(z, w + (p + k), rest);
    Regrouped(h, z + (w + (p + k)), rest);
    Regrouped(ShowSign(y.sign), h + (z + (w + (p + k))), rest);
  }

  /** No alignment character occurs after the alignment. */
  lemma NoAlignAfter(y: Syntax)
    requires Writable(y)
    ensures forall k :: 0 <= k < |ShowRest(y)| ==> AlignOf(ShowRest(y)[k]) == NoAlign
  {
    CountPlain(y.width);
    CountPlain(y.precision);
    PlainJoin(ShowPrecision(y.precision), ShowKind(y.kind));
    PlainJoin(ShowCount(y.width), ShowPrecision(y.precision) + ShowKind(y.kind));
  }

  predicate Plain(s: string) { forall k :: 0 <= k < |s| ==> AlignOf(s[k]) == NoAlign }

  lemma PlainJoin(a: string, b: string)
    requires Plain(a) && Plain(b)
    ensures Plain(a + b)
  {
  }

  lemma CountPlain(count: Count)
    requires Countable(count)
    ensures Plain(ShowCount(count))
  {
    if count.Literal? {
      assert forall k :: 0 <= k < |Digits(count.count)| ==> IsDigit(Digits(count.count)[k]);
    } else if count.Dynamic? && count.arg.Index? {
      assert forall k :: 0 <= k < |Digits(count.arg.index)| ==> IsDigit(Digits(count.arg.index)[k]);
    }
  }

  /**
    Specifiers that have a notation parse as themselves in front of a closing brace.
    With none at all, an alignment character after the brace would make the brace
    the fill.
   */
  lemma ParseShow(y: Syntax, rest: string)
    requires Writable(y) && rest != [] && rest[0] == '}'
    requires Show(y) == "" && |rest| > 1 ==> AlignOf(rest[1]) == NoAlign
    ensures ParseSpecs(Show(y) + rest) == y.(n := |Show(y)|)
  {
    var s, t := Show(y) + rest, TailsOf(y, rest);
    TailHeads(y, rest);
    RestSplits(y, rest);
    Regrouped(ShowAlign(y), ShowRest(y), rest);
    var tail := ShowSign(y.sign) + t.hash;
    HeadOf(ShowSign(y.sign), t.hash);
    NoAlignAfter(y);
    if ShowAlign(y) == "" {
      SecondPlain(y, rest);
    }
    ReadAlign(y, s, tail);
    AfterAlign(y, s, rest);
  }

  lemma SecondPlain(y: Syntax, rest: string)
    requires Plain(ShowRest(y)) && rest != [] && rest[0] == '}'
    requires ShowRest(y) == "" && |rest| > 1 ==> AlignOf(rest[1]) == NoAlign
    ensures |ShowRest(y) + rest| > 1 ==> AlignOf((ShowRest(y) + rest)[1]) == NoAlign
  {
  }

  /** The stages, when none of them ends the parsing. */
  lemma AllStages(s: string, y1: Syntax, y2: Syntax, y3: Syntax, y4: Syntax, y5: Syntax, y6: Syntax)
    requires s != [] && y1 == ParseAlign(s) && Unfinished(y1, s) && y2 == ParseSign(y1, s) && Unfinished(y2, s)
    requires y3 == ParseHash(y2, s) && Unfinished(y3, s) && y4 == ParseZero(y3, s) && Unfinished(y4, s)
    requires y5 == ParseWidth(y4, s) && Unfinished(y5, s) && y6 == ParsePrecision(y5, s) && Unfinished(y6, s)
    ensures ParseSpecs(s) == ParseKind(y6, s)
  {
  }

  lemma AfterAlign(y: Syntax, s: string, rest: string)
    requires Writable(y) && rest != [] && rest[0] == '}' && s == ShowAlign(y) + (ShowSign(y.sign) + TailsOf(y, rest).hash)
    requires s != [] && ParseAlign(s) == BLANK.(fill := y.fill, align := y.align, n := |ShowAlign(y)|)
    ensures ParseSpecs(s) == y.(n := |s| - |rest|)
  {
    var y2, y4 := FlagsAfter(y, s, rest);
    var y5, y6 := CountsAfter(y, y4, s, rest);
    AllStages(s, ParseAlign(s), y2, ParseHash(y2, s), y4, y5, y6);
  }

  /** Sign, alternate form and zero flag. */
  lemma FlagsAfter(y: Syntax, s: string, rest: string) returns (y2: Syntax, y4: Syntax)
    requires Writable(y) && rest != [] && rest[0] == '}' && s == ShowAlign(y) + (ShowSign(y.sign) + TailsOf(y, rest).hash)
    requires s != [] && ParseAlign(s) == BLANK.(fill := y.fill, align := y.align, n := |ShowAlign(y)|)
    ensures Unfinished(ParseAlign(s), s) && y2 == ParseSign(ParseAlign(s), s) && Unfinished(y2, s)
    ensures Unfinished(ParseHash(y2, s), s) && y4 == ParseZero(ParseHash(y2, s), s) && Unfinished(y4, s)
    ensures s[y4.n..] == TailsOf(y, rest).width
    ensures y4 == y.(width := Absent, precision := Absent, kind := None, n := y4.n)
  {
    var t := TailsOf(y, rest);
    TailHeads(y, rest);
    var y1 := ParseAlign(s);
    assert s[0..] == s;
    Skip(s, 0, ShowAlign(y), ShowSign(y.sign) + t.hash);
    ReadSign(y1, s, y.sign, t.hash);
    Skip(s, y1.n, ShowSign(y.sign), t.hash);
    y2 := ParseSign(y1, s);
    y4 := FlagsAfterSign(y, y2, s, t);
  }

  lemma FlagsAfterSign(y: Syntax, y2: Syntax, s: string, t: Tails) returns (y4: Syntax)
    requires Unfinished(y2, s) && !y2.alt && !y2.zero && s[y2.n..] == t.hash
    requires t.hash == (if y.alt then "#" else "") + t.zero && t.zero == (if y.zero then "0" else "") + t.width
    requires t.width != [] && WidthHead(t.width[0]) && t.zero != [] && ZeroHead(t.zero[0])
    ensures Unfinished(ParseHash(y2, s), s) && y4 == ParseZero(ParseHash(y2, s), s) && Unfinished(y4, s)
    ensures s[y4.n..] == t.width && y4 == y2.(alt := y.alt, zero := y.zero, n := y4.n)
  {
    ReadHash(y2, s, y.alt, t.zero);
    Skip(s, y2.n, if y.alt then "#" else "", t.zero);
    var y3 := ParseHash(y2, s);
    ReadZero(y3, s, y.zero, t.width);
    Skip(s, y3.n, if y.zero then "0" else "", t.width);
    y4 := ParseZero(y3, s);
  }

  /** Width, precision and type. */
  lemma CountsAfter(y: Syntax, y4: Syntax, s: string, rest: string) returns (y5: Syntax, y6: Syntax)
    requires Writable(y) && rest != [] && rest[0] == '}' && Unfinished(y4, s) && s[y4.n..] == TailsOf(y, rest).width
    requires y4 == y.(width := Absent, precision := Absent, kind := None, n := y4.n)
    ensures y5 == ParseWidth(y4, s) && Unfinished(y5, s) && y6 == ParsePrecision(y5, s) && Unfinished(y6, s)
    ensures ParseKind(y6, s) == y.(n := |s| - |rest|)
  {
    var t := TailsOf(y, rest);
    TailHeads(y, rest);
    ReadWidth(y4, s, y.width, t.precision);
    Skip(s, y4.n, ShowCount(y.width), t.precision);
    y5 := ParseWidth(y4, s);
    y6 := PrecisionAndKind(y, y5, s, t.kind, rest);
  }

  lemma PrecisionAndKind(y: Syntax, y5: Syntax, s: string, tail: string, rest: string) returns (y6: Syntax)
    requires Writable(y) && rest != [] && rest[0] == '}' && tail == ShowKind(y.kind) + rest && KindHead(tail[0])
    requires Unfinished(y5, s) && s[y5.n..] == ShowPrecision(y.precision) + tail
    requires y5 == y.(precision := Absent, kind := None, n := y5.n)
    ensures y6 == ParsePrecision(y5, s) && Unfinished(y6, s) && ParseKind(y6, s) == y.(n := |s| - |rest|)
  {
    ReadPrecision(y5, s, y.precision, tail);
    Skip(s, y5.n, ShowPrecision(y.precision), tail);
    y6 := ParsePrecision(y5, s);
    KindAndEnd(y6, s, y.kind, rest);
  }

  lemma KindAndEnd(y6: Syntax, s: string, kind: Option<char>, rest: string)
    requires Follows(s, y6.n, ShowKind(kind), rest) && rest[0] == '}' && y6.kind.None?
    requires kind.Some? ==> IsAsciiLetter(kind.value)
    ensures y6.n < |s| && ParseKind(y6, s) == y6.(kind := kind, n := |s| - |rest|)
  {
    ReadKind(y6, s, kind, rest);
    Skip(s, y6.n, ShowKind(kind), rest);
  }

  /** Without specifiers, an alignment character after the field's closing brace is taken into the field. */
  lemma BraceBecomesFill(rest: string)
    requires |rest| > 1 && rest[0] == '}' && AlignOf(rest[1]) != NoAlign
    ensures ParseAlign(rest) == BLANK.(fill := Some("}"), align := AlignOf(rest[1]), n := 2)
    ensures ParseSpecs(rest) != BLANK
  {
    assert rest[..1] == "}";
  }

  // ------------------------------------------------------------ the characters

  /** The characters that ids and alignments are made of, by their ASCII codes. */
  lemma Characters(c: char)
    ensures
      var code := c as int;
      && (IsNameStart(c) <==> 65 <= code <= 90 || 97 <= code <= 122 || code == 95)
      && (IsNameChar(c) <==> IsNameStart(c) || 48 <= code <= 57)
      && (AlignOf(c) == Left <==> code == 60) && (AlignOf(c) == Right <==> code == 62)
      && (AlignOf(c) == Center <==> code == 94) && AlignOf(c) != Numeric
  {
  }

  /** A code point as the code units of a string. */
  function FillText(cp: Utf8.scalar): (t: string)
    ensures |t| == |Utf8.Encode(cp)| && forall i :: 0 <= i < |t| ==> t[i] as int == Utf8.Encode(cp)[i]
  {
    seq(|Utf8.Encode(cp)|, i requires 0 <= i < |Utf8.Encode(cp)| => Utf8.Encode(cp)[i] as char)
  }

  /** Any code point but an opening brace can be written as a fill, however long its UTF-8 is. */
  lemma AnyFill(cp: Utf8.scalar, align: Align)
    requires cp != 0x7B && align != NoAlign && align != Numeric
    ensures Writable(BLANK.(fill := Some(FillText(cp)), align := align))
  {
    Utf8.EncodeWellFormed(cp, Utf8.Encode(cp));
  }

  /** Examples that show every part of the notation. */
  lemma LiteralExample()
    ensures ParseSpecs("*^+#010.3f}") ==
            Syntax(Some("*"), Center, Plus, true, true, Literal(10), Literal(3), Some('f'), None, 10)
  {
    var y := Syntax(Some("*"), Center, Plus, true, true, Literal(10), Literal(3), Some('f'), None, 0);
    LiteralShown(y);
    ParseShow(y, "}");
    assert "*^+#010.3f" + "}" == "*^+#010.3f}";
  }

  lemma LiteralShown(y: Syntax)
    requires y == Syntax(Some("*"), Center, Plus, true, true, Literal(10), Literal(3), Some('f'), None, 0)
    ensures Show(y) == "*^+#010.3f"
  {
    assert Digits(10) == Digits(1) + ['0'] == "10";
    assert ShowAlign(y) == "*^" && ShowPrecision(y.precision) == ".3";
  }

  lemma DynamicExample()
    ensures ParseSpecs("<-{w}.{0}e}") ==
            Syntax(None, Left, Minus, false, false, Dynamic(Name("w")), Dynamic(Index(0)), Some('e'), None, 10)
  {
    var y := Syntax(None, Left, Minus, false, false, Dynamic(Name("w")), Dynamic(Index(0)), Some('e'), None, 0);
    assert ShowCount(y.width) == "{w}" && ShowPrecision(y.precision) == ".{0}";
    assert Show(y) == "<-{w}.{0}e";
    ParseShow(y, "}");
    assert "<-{w}.{0}e" + "}" == "<-{w}.{0}e}";
  }

  lemma AutomaticExample()
    ensures ParseSpecs("> {}}") ==
            Syntax(None, Right, Space, false, false, Dynamic(Automatic), Absent, None, None, 4)
  {
    var y := Syntax(None, Right, Space, false, false, Dynamic(Automatic), Absent, None, None, 0);
    assert ShowCount(y.width) == "{}";
    assert Show(y) == "> {}";
    ParseShow(y, "}");
    assert "> {}" + "}" == "> {}}";
  }
}
