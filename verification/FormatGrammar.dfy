/**
  Everything that formats is written in the grammar of format strings: text with doubled
  braces, and fields with an id and specifiers in their order.  What is printed is then
  what those items mean.
 */
module FormatGrammar {
  import opened Decimal
  import opened FormatParse
  import opened FormatSpecs
  import opened FormatCompile
  import opened SpecsRoundTrip
  import opened FormatRoundTrip
  import opened FormatItems
  import opened FormatMeaning

  // --------------------------------------------------------------- the grammar

  /** An id: nothing, a number without leading zeros that fits an int, or a name. */
  ghost predicate IdWritten(t: string, id: ArgId)
  {
    match id
    case Automatic => t == ""
    case Index(i) => t != "" && AllDigits(t) && DigitsVal(t) == i <= 0x7FFF_FFFF && (t[0] == '0' ==> |t| == 1)
    case Name(name) => t == name && t != "" && IsNameStart(t[0]) && forall k :: 0 <= k < |t| ==> IsNameChar(t[k])
  }

  ghost predicate BracedWritten(t: string, id: ArgId)
  {
    exists name :: IdWritten(name, id) && t == "{" + name + "}"
  }

  /** A count: nothing, a number that fits an int, or an id in braces. */
  ghost predicate CountWritten(t: string, count: Count)
  {
    match count
    case Absent => t == ""
    case Literal(n) => t != "" && AllDigits(t) && DigitsVal(t) == n <= 0x7FFF_FFFF
    case Dynamic(id) => BracedWritten(t, id)
  }

  ghost predicate PrecisionWritten(t: string, count: Count)
  {
    if count.Absent? then t == "" else t != "" && t[0] == '.' && CountWritten(t[1..], count)
  }

  /** A fill is one code point, not an opening brace, and has an alignment after it. */
  ghost predicate FillWritten(y: Syntax)
  {
    && y.align != Numeric
    && (y.fill.Some? ==> && y.align != NoAlign && y.fill.value != "" && y.fill.value[0] != '{'
                         && |y.fill.value| == CodePointLength(y.fill.value[0]))
  }

  /** Specifiers: fill and alignment, sign, '#', '0', width, precision and type, in this order. */
  ghost predicate SpecsWritten(t: string, y: Syntax)
  {
    && y.error.None? && FillWritten(y) && y.kind != Some('}')
    && exists width, precision :: CountsWritten(t, y, width, precision)
  }

  ghost predicate CountsWritten(t: string, y: Syntax, width: string, precision: string)
  {
    && CountWritten(width, y.width) && PrecisionWritten(precision, y.precision)
    && t == ShowAlign(y) + ShowSign(y.sign) + (if y.alt then "#" else "") + (if y.zero then "0" else "")
            + width + precision + ShowKind(y.kind)
  }

  ghost predicate FieldWritten(t: string, id: ArgId, specs: Option<Syntax>)
  {
    if specs.None? then BracedWritten(t, id)
    else exists name, inner :: SpecsFieldWritten(t, id, specs.value, name, inner)
  }

  ghost predicate SpecsFieldWritten(t: string, id: ArgId, y: Syntax, name: string, inner: string)
  {
    IdWritten(name, id) && SpecsWritten(inner, y) && t == "{" + name + ":" + inner + "}"
  }

  /** A piece of a format string and the item it is. */
  ghost predicate PieceWritten(writes: (string, ArgId, Option<Syntax>) -> bool, piece: string, item: Item)
  {
    match item
    case Words(text) => piece == Escape(text)
    case Field(id, specs) => writes(piece, id, specs)
  }

  ghost predicate AllWritten(writes: (string, ArgId, Option<Syntax>) -> bool, pieces: seq<string>, items: seq<Item>)
  {
    |pieces| == |items| && forall i :: 0 <= i < |items| ==> PieceWritten(writes, pieces[i], items[i])
  }

  ghost function Grammar(): (string, ArgId, Option<Syntax>) -> bool
  {
    (t: string, id: ArgId, specs: Option<Syntax>) => FieldWritten(t, id, specs)
  }

  // ---------------------------------------------------------------------- ids

  lemma IdRead(s: string)
    requires s != [] && ParseArgId(s).Ok?
    ensures
      var (id, n) := ParseArgId(s).value;
      n <= |s| && IdWritten(s[..n], id)
  {
    var (id, n) := ParseArgId(s).value;
    if id.Index? {
      assert s[..n][0] == s[0];
    }
  }

  /** An id in braces ends at the closing one. */
  lemma CountInBraces(s: string, at: nat, b: Braced)
    requires at < |s| && s[at] == '{' && b == ParseBraced(s, at + 1) && b.error.None?
    ensures at < b.n <= |s| && b.id.Some? && CountWritten(s[at..b.n], Dynamic(b.id.value))
  {
    var inside := s[at + 1..];
    IdRead(inside);
    var (id, n) := ParseArgId(inside).value;
    InBraces(s, at, at + n + 2, inside[..n], id);
  }

  lemma InBraces(s: string, at: nat, end: nat, name: string, id: ArgId)
    requires at + 1 < end <= |s| && s[at] == '{' && s[end - 1] == '}' && name == s[at + 1..end - 1] && IdWritten(name, id)
    ensures BracedWritten(s[at..end], id) && CountWritten(s[at..end], Dynamic(id))
  {
    assert s[at..end] == "{" + name + "}";
  }

  lemma CountInDigits(s: string, at: nat)
    requires at < |s| && IsDigit(s[at]) && NonNegativeInt(s[at..]).Ok?
    ensures
      var (count, n) := NonNegativeInt(s[at..]).value;
      at + n <= |s| && CountWritten(s[at..at + n], Literal(count))
  {
    var n := NonNegativeInt(s[at..]).value.1;
    assert s[at..][..n] == s[at..at + n];
  }

  // ---------------------------------------------------------------- the stages

  /** A stage took a piece of s. */
  ghost predicate Took(s: string, y: Syntax, r: Syntax, piece: string)
  {
    y.n <= r.n <= |s| && s[..r.n] == s[..y.n] + piece
  }

  lemma TookIs(s: string, y: Syntax, r: Syntax, piece: string)
    requires y.n <= r.n <= |s| && s[y.n..r.n] == piece
    ensures Took(s, y, r, piece)
  {
    assert s[..r.n] == s[..y.n] + s[y.n..r.n];
  }

  lemma AlignTook(s: string)
    requires s != [] && ParseAlign(s).error.None?
    ensures
      var r := ParseAlign(s);
      && r == BLANK.(fill := r.fill, align := r.align, n := r.n)
      && FillWritten(r) && r.n <= |s| && s[..r.n] == ShowAlign(r)
  {
    var p := CodePointLength(s[0]);
    if p < |s| && AlignOf(s[p]) != NoAlign {
      assert s[..p + 1] == s[..p] + [s[p]];
      assert s[..p][0] == s[0];
    } else if AlignOf(s[0]) != NoAlign {
      assert s[..1] == [s[0]];
    }
  }

  function Signed(y: Syntax, s: string): Syntax { if Unfinished(y, s) then ParseSign(y, s) else y }
  function Hashed(y: Syntax, s: string): Syntax { if Unfinished(y, s) then ParseHash(y, s) else y }
  function Zeroed(y: Syntax, s: string): Syntax { if Unfinished(y, s) then ParseZero(y, s) else y }
  function Widened(y: Syntax, s: string): Syntax { if Unfinished(y, s) then ParseWidth(y, s) else y }
  function Pointed(y: Syntax, s: string): Syntax { if Unfinished(y, s) then ParsePrecision(y, s) else y }
  function Typed(y: Syntax, s: string): Syntax { if Unfinished(y, s) then ParseKind(y, s) else y }

  lemma SignTook(y: Syntax, s: string)
    requires y.n <= |s| && y.sign == NoSign
    ensures
      var r := Signed(y, s);
      r == y.(sign := r.sign, n := r.n) && Took(s, y, r, ShowSign(r.sign))
  {
    TookIs(s, y, Signed(y, s), ShowSign(Signed(y, s).sign));
  }

  lemma HashTook(y: Syntax, s: string)
    requires y.n <= |s| && !y.alt
    ensures
      var r := Hashed(y, s);
      r == y.(alt := r.alt, n := r.n) && Took(s, y, r, if r.alt then "#" else "")
  {
    TookIs(s, y, Hashed(y, s), if Hashed(y, s).alt then "#" else "");
  }

  lemma ZeroTook(y: Syntax, s: string)
    requires y.n <= |s| && !y.zero
    ensures
      var r := Zeroed(y, s);
      r == y.(zero := r.zero, n := r.n) && Took(s, y, r, if r.zero then "0" else "")
  {
    TookIs(s, y, Zeroed(y, s), if Zeroed(y, s).zero then "0" else "");
  }

  lemma WidthTook(y: Syntax, s: string) returns (piece: string)
    requires y.n <= |s| && y.width.Absent? && Widened(y, s).error.None?
    ensures
      var r := Widened(y, s);
      r == y.(width := r.width, n := r.n) && Took(s, y, r, piece) && CountWritten(piece, r.width)
  {
    var r := Widened(y, s);
    if Unfinished(y, s) {
      WidthRead(y, s, r);
    }
    piece := s[y.n..r.n];
    TookIs(s, y, r, piece);
  }

  lemma WidthRead(y: Syntax, s: string, r: Syntax)
    requires Unfinished(y, s) && y.width.Absent? && r == ParseWidth(y, s) && r.error.None?
    ensures r == y.(width := r.width, n := r.n) && y.n <= r.n <= |s| && CountWritten(s[y.n..r.n], r.width)
  {
    if IsDigit(s[y.n]) {
      WidthInDigits(y, s, r, NonNegativeInt(s[y.n..]));
    } else if s[y.n] == '{' {
      WidthInBraces(y, s, r, ParseBraced(s, y.n + 1));
    }
  }

  lemma WidthInDigits(y: Syntax, s: string, r: Syntax, count: Result<(nat, nat)>)
    requires Unfinished(y, s) && IsDigit(s[y.n]) && count == NonNegativeInt(s[y.n..]) && count.Ok?
    requires r == y.(width := Literal(count.value.0), n := y.n + count.value.1)
    ensures y.n <= r.n <= |s| && CountWritten(s[y.n..r.n], r.width)
  {
    CountInDigits(s, y.n);
  }

  lemma WidthInBraces(y: Syntax, s: string, r: Syntax, b: Braced)
    requires Unfinished(y, s) && s[y.n] == '{' && b == ParseBraced(s, y.n + 1)
    requires r == y.(width := BracedCount(b), error := b.error, n := b.n) && r.error.None?
    ensures y.n <= r.n <= |s| && CountWritten(s[y.n..r.n], r.width)
  {
    CountInBraces(s, y.n, b);
  }

  lemma PrecisionTook(y: Syntax, s: string) returns (piece: string)
    requires y.n <= |s| && y.precision.Absent? && Pointed(y, s).error.None?
    ensures
      var r := Pointed(y, s);
      r == y.(precision := r.precision, n := r.n) && Took(s, y, r, piece) && PrecisionWritten(piece, r.precision)
  {
    var r, at := Pointed(y, s), y.n + 1;
    if Unfinished(y, s) && s[y.n] == '.' && at < |s| {
      if IsDigit(s[at]) {
        CountInDigits(s, at);
      } else if s[at] == '{' {
        CountInBraces(s, at, ParseBraced(s, at + 1));
      }
    }
    piece := s[y.n..r.n];
    if r.n > y.n {
      assert piece[1..] == s[at..r.n];
    }
    TookIs(s, y, r, piece);
  }

  lemma KindTook(y: Syntax, s: string)
    requires y.n <= |s| && y.kind.None?
    ensures
      var r := Typed(y, s);
      r == y.(kind := r.kind, n := r.n) && r.kind != Some('}') && Took(s, y, r, ShowKind(r.kind))
  {
    TookIs(s, y, Typed(y, s), ShowKind(Typed(y, s).kind));
  }

  lemma StagesAre(s: string, y1: Syntax)
    requires s != [] && y1 == ParseAlign(s)
    ensures ParseSpecs(s) == Typed(Pointed(Widened(Zeroed(Hashed(Signed(y1, s), s), s), s), s), s)
  {
  }

  /** No stage hides an earlier error. */
  lemma ErrorsStay(y: Syntax, s: string)
    requires y.error.Some?
    ensures Widened(y, s) == y && Pointed(y, s) == y && Typed(y, s) == y && Signed(y, s) == Hashed(y, s) == Zeroed(y, s) == y
  {
  }

  /** What was read is written in front of where reading stopped. */
  lemma SpecsRead(s: string)
    requires s != [] && ParseSpecs(s).error.None?
    ensures
      var y := ParseSpecs(s);
      y.n <= |s| && SpecsWritten(s[..y.n], y)
  {
    var y1 := ParseAlign(s);
    StagesAre(s, y1);
    if y1.error.Some? {
      ErrorsStay(y1, s);
      assert false;
    }
    AlignTook(s);
    SignTook(y1, s);
    var y2 := Signed(y1, s);
    HashTook(y2, s);
    var y3 := Hashed(y2, s);
    ZeroTook(y3, s);
    var y4 := Zeroed(y3, s);
    var y5 := Widened(y4, s);
    if y5.error.Some? {
      ErrorsStay(y5, s);
      assert false;
    }
    var width := WidthTook(y4, s);
    var y6 := Pointed(y5, s);
    if y6.error.Some? {
      ErrorsStay(y6, s);
      assert false;
    }
    var precision := PrecisionTook(y5, s);
    KindTook(y6, s);
    assert CountsWritten(s[..Typed(y6, s).n], Typed(y6, s), width, precision);
  }

  // ----------------------------------------------------------------- the fields

  lemma NameAndSpecs(s: string, at: nat, n: nat, id: ArgId, y: Syntax)
    requires 1 <= at && at + 1 < n <= |s| && s[0] == '{' && s[at] == ':' && s[n - 1] == '}'
    requires IdWritten(s[1..at], id) && SpecsWritten(s[at + 1..n - 1], y)
    ensures FieldWritten(s[..n], id, Some(y))
  {
    AroundColon(s, at, n);
    assert SpecsFieldWritten(s[..n], id, y, s[1..at], s[at + 1..n - 1]);
  }

  lemma AroundColon(s: string, at: nat, n: nat)
    requires 1 <= at && at + 1 < n <= |s| && s[0] == '{' && s[at] == ':' && s[n - 1] == '}'
    ensures s[..n] == "{" + s[1..at] + ":" + s[at + 1..n - 1] + "}"
  {
  }

  lemma NameAlone(s: string, n: nat, id: ArgId)
    requires 2 <= n <= |s| && s[0] == '{' && s[n - 1] == '}' && IdWritten(s[1..n - 1], id)
    ensures FieldWritten(s[..n], id, None)
  {
    assert s[0..n] == s[..n];
    InBraces(s, 0, n, s[1..n - 1], id);
  }

  /** Specifiers that the direct formatter takes are written, up to the closing brace. */
  lemma OnSpecsRead(args: Args, render: Renderer, d: Direct, i: int, s: string, d1: Direct, m: nat)
    returns (y: Syntax)
    requires DirectOnSpecs(args, render, d, i, s) == Ok((d1, m))
    ensures m < |s| && SpecsWritten(s[..m], y) && DirectTakeSpecs(args, render, d, i, y) == Ok(d1)
  {
    ShortcutIsField(args, render, d, i, s);
    y := ParseSpecs(s);
    SpecsRead(s);
  }

  /** How a field ends, for any handler. */
  lemma FieldEnds<H>(handler: Handler<H>, h: H, i: int, s: string, at: nat, h1: H, n: nat) returns (m: nat)
    requires 1 <= at <= |s| && AfterArgId(handler, h, i, s, at) == Ok((h1, n))
    ensures at < n <= |s| && s[n - 1] == '}'
    ensures
      if s[at] == '}' then n == at + 1 && handler.onReplacement(h, i) == Ok(h1)
      else s[at] == ':' && n == at + m + 2 && handler.onSpecs(h, i, s[at + 1..]) == Ok((h1, m))
  {
    m := 0;
    if s[at] != '}' {
      m := handler.onSpecs(h, i, s[at + 1..]).value.1;
    }
  }

  /** What stands between the braces of a field that is taken. */
  ghost predicate FieldRead(args: Args, render: Renderer, d: Direct, s: string, n: nat, d1: Direct, id: ArgId,
                            specs: Option<Syntax>)
  {
    2 <= n <= |s| && FieldWritten(s[..n], id, specs) && DirectTake(args, render, d, id, specs) == Ok(d1)
  }

  /** The same for the direct formatter. */
  ghost predicate Ends(args: Args, render: Renderer, d1: Direct, i: int, s: string, at: nat, d2: Direct, n: nat, m: nat)
  {
    && at < n <= |s| && s[n - 1] == '}'
    && if s[at] == '}' then n == at + 1 && DirectReplacement(args, render, d1, i) == Ok(d2)
       else s[at] == ':' && n == at + m + 2 && DirectOnSpecs(args, render, d1, i, s[at + 1..]) == Ok((d2, m))
  }

  lemma DirectEnds(args: Args, render: Renderer, d1: Direct, i: int, s: string, at: nat, d2: Direct, n: nat)
    returns (m: nat)
    requires 1 <= at <= |s| && AfterArgId(DirectHandler(args, render), d1, i, s, at) == Ok((d2, n))
    ensures Ends(args, render, d1, i, s, at, d2, n, m)
  {
    m := FieldEnds(DirectHandler(args, render), d1, i, s, at, d2, n);
  }

  lemma AfterIdRead(args: Args, render: Renderer, d: Direct, id: ArgId, s: string, at: nat, d1: Direct, i: int,
                    d2: Direct, n: nat, m: nat)
    returns (specs: Option<Syntax>)
    requires 1 <= at && Ends(args, render, d1, i, s, at, d2, n, m)
    requires s[0] == '{' && IdWritten(s[1..at], id) && DirectArgId(args, d, id) == Ok((d1, i))
    ensures FieldRead(args, render, d, s, n, d2, id, specs)
  {
    if s[at] == '}' {
      specs := None;
      NameAlone(s, n, id);
      TakenIs(args, render, d, id, None, d1, i);
    } else {
      specs := SpecsAfterId(args, render, d, id, s, at, d1, i, d2, n, m);
    }
  }

  lemma SpecsAfterId(args: Args, render: Renderer, d: Direct, id: ArgId, s: string, at: nat, d1: Direct, i: int,
                     d2: Direct, n: nat, m: nat)
    returns (specs: Option<Syntax>)
    requires 1 <= at && n == at + m + 2 <= |s| && s[at] == ':' && s[n - 1] == '}' && s[0] == '{'
    requires DirectOnSpecs(args, render, d1, i, s[at + 1..]) == Ok((d2, m))
    requires IdWritten(s[1..at], id) && DirectArgId(args, d, id) == Ok((d1, i))
    ensures FieldRead(args, render, d, s, n, d2, id, specs)
  {
    var y := SpecsAfterColon(args, render, s, at, d1, i, d2, n, m);
    WholeField(args, render, d, id, s, at, d1, i, d2, n, y);
    specs := Some(y);
  }

  lemma WholeField(args: Args, render: Renderer, d: Direct, id: ArgId, s: string, at: nat, d1: Direct, i: int,
                   d2: Direct, n: nat, y: Syntax)
    requires 1 <= at && at + 1 < n <= |s| && s[0] == '{' && s[at] == ':' && s[n - 1] == '}'
    requires IdWritten(s[1..at], id) && SpecsWritten(s[at + 1..n - 1], y)
    requires DirectArgId(args, d, id) == Ok((d1, i)) && DirectTakeSpecs(args, render, d1, i, y) == Ok(d2)
    ensures FieldRead(args, render, d, s, n, d2, id, Some(y))
  {
    NameAndSpecs(s, at, n, id, y);
    TakenIs(args, render, d, id, Some(y), d1, i);
  }

  lemma TakenIs(args: Args, render: Renderer, d: Direct, id: ArgId, specs: Option<Syntax>, d1: Direct, i: int)
    requires DirectArgId(args, d, id) == Ok((d1, i))
    ensures DirectTake(args, render, d, id, specs) ==
            if specs.None? then DirectReplacement(args, render, d1, i)
            else DirectTakeSpecs(args, render, d1, i, specs.value)
  {
  }

  lemma SpecsAfterColon(args: Args, render: Renderer, s: string, at: nat, d1: Direct, i: int, d2: Direct, n: nat, m: nat)
    returns (y: Syntax)
    requires n == at + m + 2 <= |s| && DirectOnSpecs(args, render, d1, i, s[at + 1..]) == Ok((d2, m))
    ensures SpecsWritten(s[at + 1..n - 1], y) && DirectTakeSpecs(args, render, d1, i, y) == Ok(d2)
  {
    y := OnSpecsRead(args, render, d1, i, s[at + 1..], d2, m);
    assert s[at + 1..][..m] == s[at + 1..n - 1];
  }

  /** A field that is taken is a doubled brace or a field of the grammar. */
  ghost predicate ReplacementIs(args: Args, render: Renderer, d: Direct, s: string, d1: Direct, n: nat)
  {
    || (n == 2 <= |s| && s[1] == '{' && d1 == d.(out := d.out + "{"))
    || exists id, specs :: FieldRead(args, render, d, s, n, d1, id, specs)
  }

  lemma ReplacementRead(args: Args, render: Renderer, d: Direct, s: string, d1: Direct, n: nat)
    requires s != "" && s[0] == '{' && ParseReplacement(DirectHandler(args, render), d, s) == Ok((d1, n))
    ensures ReplacementIs(args, render, d, s, d1, n)
  {
    if s[1] == '}' {
      IdThenRest(args, render, d, Automatic, s, 1, d1, n);
    } else if s[1] != '{' {
      GivenIdRead(args, render, d, s, d1, n);
    }
  }

  lemma GivenIdRead(args: Args, render: Renderer, d: Direct, s: string, d1: Direct, n: nat)
    requires |s| > 1 && s[0] == '{' && s[1] != '}' && s[1] != '{'
    requires ParseReplacement(DirectHandler(args, render), d, s) == Ok((d1, n))
    ensures ReplacementIs(args, render, d, s, d1, n)
  {
    var (id, k) := ParseArgId(s[1..]).value;
    IdRead(s[1..]);
    assert s[1..][..k] == s[1..1 + k];
    IdThenRest(args, render, d, id, s, 1 + k, d1, n);
  }

  lemma IdThenRest(args: Args, render: Renderer, d: Direct, id: ArgId, s: string, at: nat, d2: Direct, n: nat)
    requires 1 <= at <= |s| && s[0] == '{' && IdWritten(s[1..at], id) && DirectArgId(args, d, id).Ok?
    requires
      var (d1, i) := DirectArgId(args, d, id).value;
      AfterArgId(DirectHandler(args, render), d1, i, s, at) == Ok((d2, n))
    ensures ReplacementIs(args, render, d, s, d2, n)
  {
    var (d1, i) := DirectArgId(args, d, id).value;
    var m := DirectEnds(args, render, d1, i, s, at, d2, n);
    var specs := AfterIdRead(args, render, d, id, s, at, d1, i, d2, n, m);
  }

  // -------------------------------------------------------------- whole strings

  /** A handler that takes only text, doubled braces and fields of a grammar. */
  ghost predicate ReadsOnly<H(!new)>(events: Events<H>, t: Taker<H>, writes: (string, ArgId, Option<Syntax>) -> bool)
  {
    && WellBehaved(events)
    && (forall h, x :: AddsText(events, t, h, x))
    && (forall h, s :: FieldIs(events, t, writes, h, s))
  }

  ghost predicate FieldIs<H(!new)>(events: Events<H>, t: Taker<H>, writes: (string, ArgId, Option<Syntax>) -> bool, h: H,
                                   s: string)
  {
    s != "" && s[0] == '{' && events.onField(h, s).Ok? ==>
      var (h1, n) := events.onField(h, s).value;
      n <= |s| && exists item :: PieceWritten(writes, s[..n], item) && HandledOne(t, h, item) == Ok(h1)
  }

  lemma {:induction false} EscapeNoBraces(text: string)
    requires forall k :: 0 <= k < |text| ==> !IsBrace(text[k])
    ensures Escape(text) == text
  {
    if text != [] {
      EscapeNoBraces(text[1..]);
      assert text == [text[0]] + text[1..];
    }
  }

  lemma {:induction false} EscapeJoins(a: string, b: string)
    ensures Escape(a + b) == Escape(a) + Escape(b)
  {
    if a == [] {
      assert a + b == b;
    } else {
      assert (a + b)[0] == a[0] && (a + b)[1..] == a[1..] + b;
      EscapeJoins(a[1..], b);
    }
  }

  /** Text that ends in a doubled closing brace. */
  lemma ClosingEscaped(s: string, from: nat, i: nat)
    requires from <= i && i + 1 < |s| && s[i] == '}' && s[i + 1] == '}' && forall k :: from <= k < i ==> !IsBrace(s[k])
    ensures Escape(s[from..i + 1]) == s[from..i + 2]
  {
    var text := s[from..i];
    EscapeNoBraces(text);
    EscapeJoins(text, "}");
    assert s[from..i + 1] == text + "}";
    assert Escape("}") == "}}" by {
      assert "}"[1..] == "";
    }
    assert s[from..i + 2] == text + "}}";
  }

  // A list of items read so far, with the pieces of the string they were read from.

  ghost predicate ReadAs<H(!new)>(t: Taker<H>, writes: (string, ArgId, Option<Syntax>) -> bool, h: H, text: string, h1: H,
                                  pieces: seq<string>, items: seq<Item>)
  {
    AllWritten(writes, pieces, items) && Join(pieces) == text && Handled(t, h, items) == Ok(h1)
  }

  lemma NothingRead<H(!new)>(t: Taker<H>, writes: (string, ArgId, Option<Syntax>) -> bool, h: H)
    ensures ReadAs(t, writes, h, "", h, [], [])
  {
  }

  /** One item in front of the others. */
  lemma ReadFirst<H(!new)>(t: Taker<H>, writes: (string, ArgId, Option<Syntax>) -> bool, h: H, h1: H, item: Item,
                           piece: string, rest: string, h2: H, pieces: seq<string>, items: seq<Item>)
    requires PieceWritten(writes, piece, item) && HandledOne(t, h, item) == Ok(h1)
    requires ReadAs(t, writes, h1, rest, h2, pieces, items)
    ensures ReadAs(t, writes, h, piece + rest, h2, [piece] + pieces, [item] + items)
  {
    var all, them := [item] + items, [piece] + pieces;
    assert all[0] == item && all[1..] == items && them[0] == piece && them[1..] == pieces;
    forall i | 0 <= i < |all|
      ensures PieceWritten(writes, them[i], all[i])
    {
      if i > 0 {
        assert PieceWritten(writes, pieces[i - 1], items[i - 1]);
      }
    }
  }

  /** Text without braces as an item. */
  lemma TextPiece<H(!new)>(events: Events<H>, t: Taker<H>, writes: (string, ArgId, Option<Syntax>) -> bool, h: H,
                           text: string)
    requires ReadsOnly(events, t, writes) && forall k :: 0 <= k < |text| ==> !IsBrace(text[k])
    ensures PieceWritten(writes, text, Words(text)) && HandledOne(t, h, Words(text)) == events.onText(h, text)
  {
    EscapeNoBraces(text);
    assert AddsText(events, t, h, text);
  }

  lemma LastText<H(!new)>(events: Events<H>, t: Taker<H>, writes: (string, ArgId, Option<Syntax>) -> bool, h: H,
                          text: string, h2: H)
    returns (pieces: seq<string>, items: seq<Item>)
    requires ReadsOnly(events, t, writes) && (forall k :: 0 <= k < |text| ==> !IsBrace(text[k]))
    requires events.onText(h, text) == Ok(h2)
    ensures ReadAs(t, writes, h, text, h2, pieces, items)
  {
    TextPiece(events, t, writes, h, text);
    NothingRead(t, writes, h2);
    ReadFirst(t, writes, h, h2, Words(text), text, "", h2, [], []);
    pieces, items := [text] + [], [Words(text)] + [];
    assert text + "" == text;
  }

  /** Text that ends in a doubled closing brace, and the rest. */
  lemma ClosingFound<H(!new)>(events: Events<H>, t: Taker<H>, writes: (string, ArgId, Option<Syntax>) -> bool, h: H,
                              s: string, from: nat, at: nat, h2: H)
    returns (item: Item, h1: H)
    requires ReadsOnly(events, t, writes) && from <= at < |s| && s[at] == '}'
    requires (forall k :: from <= k < at ==> !IsBrace(s[k])) && Parse(events, h, s, from, |s|) == Ok(h2)
    ensures at + 2 <= |s| && Parse(events, h1, s, at + 2, |s|) == Ok(h2)
    ensures PieceWritten(writes, s[from..at + 2], item) && HandledOne(t, h, item) == Ok(h1)
  {
    ParseClosing(events, h, s, from, at, |s|);
    ClosingEscaped(s, from, at);
    item, h1 := Words(s[from..at + 1]), t.add(h, s[from..at + 1]);
    assert AddsText(events, t, h, s[from..at + 1]);
  }

  /** What parses is a list of items of the grammar, and parsing handles that list. */
  lemma {:induction false} ParsedIsWritten<H(!new)>(events: Events<H>, t: Taker<H>,
                                                    writes: (string, ArgId, Option<Syntax>) -> bool, h: H, s: string,
                                                    from: nat, h2: H)
    returns (pieces: seq<string>, items: seq<Item>)
    requires ReadsOnly(events, t, writes) && from <= |s| && Parse(events, h, s, from, |s|) == Ok(h2)
    ensures ReadAs(t, writes, h, s[from..], h2, pieces, items)
    decreases |s| - from
  {
    var i := NextBrace(s, from, |s|);
    if i == |s| {
      ParseText(events, h, s, from, |s|);
      pieces, items := LastText(events, t, writes, h, s[from..|s|], h2);
      assert s[from..|s|] == s[from..];
    } else if s[i] == '}' {
      pieces, items := ClosingIsWritten(events, t, writes, h, s, from, i, h2);
    } else {
      pieces, items := FieldIsWritten(events, t, writes, h, s, from, i, h2);
    }
  }

  lemma {:induction false} ClosingIsWritten<H(!new)>(events: Events<H>, t: Taker<H>,
                                                     writes: (string, ArgId, Option<Syntax>) -> bool, h: H, s: string,
                                                     from: nat, at: nat, h2: H)
    returns (pieces: seq<string>, items: seq<Item>)
    requires ReadsOnly(events, t, writes) && from <= at < |s| && s[at] == '}'
    requires (forall k :: from <= k < at ==> !IsBrace(s[k])) && Parse(events, h, s, from, |s|) == Ok(h2)
    ensures ReadAs(t, writes, h, s[from..], h2, pieces, items)
    decreases |s| - from, 0
  {
    var item, h1 := ClosingFound(events, t, writes, h, s, from, at, h2);
    var rest, them := ParsedIsWritten(events, t, writes, h1, s, at + 2, h2);
    pieces, items := [s[from..at + 2]] + rest, [item] + them;
    ReadFirst(t, writes, h, h1, item, s[from..at + 2], s[at + 2..], h2, rest, them);
    assert s[from..at + 2] + s[at + 2..] == s[from..];
  }

  /** Text, then a field: the two items, and the rest. */
  lemma FieldFound<H(!new)>(events: Events<H>, t: Taker<H>, writes: (string, ArgId, Option<Syntax>) -> bool, h: H,
                            s: string, from: nat, at: nat, h2: H)
    returns (h1: H, item: Item, h3: H, n: nat)
    requires ReadsOnly(events, t, writes) && from <= at < |s| && s[at] == '{'
    requires (forall k :: from <= k < at ==> !IsBrace(s[k])) && Parse(events, h, s, from, |s|) == Ok(h2)
    ensures 1 <= n <= |s| - at && Parse(events, h3, s, at + n, |s|) == Ok(h2)
    ensures PieceWritten(writes, s[from..at], Words(s[from..at])) && HandledOne(t, h, Words(s[from..at])) == Ok(h1)
    ensures PieceWritten(writes, s[at..at + n], item) && HandledOne(t, h1, item) == Ok(h3)
  {
    ParseField(events, h, s, from, at, |s|);
    TextPiece(events, t, writes, h, s[from..at]);
    h1 := events.onText(h, s[from..at]).value;
    h3, n := events.onField(h1, s[at..|s|]).value.0, events.onField(h1, s[at..|s|]).value.1;
    assert FieldIs(events, t, writes, h1, s[at..|s|]);
    item :| PieceWritten(writes, s[at..|s|][..n], item) && HandledOne(t, h1, item) == Ok(h3);
    assert s[at..|s|][..n] == s[at..at + n];
  }

  lemma {:induction false} FieldIsWritten<H(!new)>(events: Events<H>, t: Taker<H>,
                                                   writes: (string, ArgId, Option<Syntax>) -> bool, h: H, s: string,
                                                   from: nat, at: nat, h2: H)
    returns (pieces: seq<string>, items: seq<Item>)
    requires ReadsOnly(events, t, writes) && from <= at < |s| && s[at] == '{'
    requires (forall k :: from <= k < at ==> !IsBrace(s[k])) && Parse(events, h, s, from, |s|) == Ok(h2)
    ensures ReadAs(t, writes, h, s[from..], h2, pieces, items)
    decreases |s| - from, 0
  {
    var h1, item, h3, n := FieldFound(events, t, writes, h, s, from, at, h2);
    var rest, them := ParsedIsWritten(events, t, writes, h3, s, at + n, h2);
    pieces, items := [s[from..at]] + ([s[at..at + n]] + rest), [Words(s[from..at])] + ([item] + them);
    Rejoined(s, from, at, at + n);
    ReadTwo(t, writes, h, h1, Words(s[from..at]), s[from..at], h3, item, s[at..at + n], s[at + n..], h2, rest, them);
  }

  lemma Rejoined(s: string, a: nat, b: nat, c: nat)
    requires a <= b <= c <= |s|
    ensures s[a..b] + (s[b..c] + s[c..]) == s[a..]
  {
  }

  lemma ReadTwo<H(!new)>(t: Taker<H>, writes: (string, ArgId, Option<Syntax>) -> bool, h: H, h1: H, first: Item,
                         text: string, h3: H, item: Item, piece: string, rest: string, h2: H, pieces: seq<string>,
                         items: seq<Item>)
    requires PieceWritten(writes, text, first) && HandledOne(t, h, first) == Ok(h1)
    requires PieceWritten(writes, piece, item) && HandledOne(t, h1, item) == Ok(h3)
    requires ReadAs(t, writes, h3, rest, h2, pieces, items)
    ensures ReadAs(t, writes, h, text + (piece + rest), h2, [text] + ([piece] + pieces), [first] + ([item] + items))
  {
    ReadFirst(t, writes, h1, h3, item, piece, rest, h2, pieces, items);
    ReadFirst(t, writes, h, h1, first, text, piece + rest, h2, [piece] + pieces, [item] + items);
  }

  // --------------------------------------------------------------- the theorem

  lemma DirectReadsOnly(args: Args, render: Renderer)
    ensures ReadsOnly(AsEvents(DirectHandler(args, render)), DirectTaker(args, render), Grammar())
  {
    DirectWellBehaved(args, render);
    var events, t := AsEvents(DirectHandler(args, render)), DirectTaker(args, render);
    forall d, s
      ensures FieldIs(events, t, Grammar(), d, s)
    {
      if s != "" && s[0] == '{' && events.onField(d, s).Ok? {
        OnFieldIs(DirectHandler(args, render), d, s);
        var (d1, n) := events.onField(d, s).value;
        ReplacementRead(args, render, d, s, d1, n);
        ReplacementIsItem(args, render, d, s, d1, n);
      }
    }
  }

  lemma ReplacementIsItem(args: Args, render: Renderer, d: Direct, s: string, d1: Direct, n: nat)
    requires n <= |s| && s != "" && s[0] == '{' && ReplacementIs(args, render, d, s, d1, n)
    ensures exists item :: PieceWritten(Grammar(), s[..n], item) && HandledOne(DirectTaker(args, render), d, item) == Ok(d1)
  {
    if id, specs :| FieldRead(args, render, d, s, n, d1, id, specs) {
      var item := Field(id, specs);
      assert PieceWritten(Grammar(), s[..n], item) && HandledOne(DirectTaker(args, render), d, item) == Ok(d1);
    } else {
      var item := Words("{");
      assert "{"[1..] == "";
      assert s[..n] == "{{" == Escape("{");
      assert PieceWritten(Grammar(), s[..n], item) && HandledOne(DirectTaker(args, render), d, item) == Ok(d1);
    }
  }

  lemma WrittenIsSound(pieces: seq<string>, items: seq<Item>)
    requires AllWritten(Grammar(), pieces, items)
    ensures AllSound(items)
  {
    forall i | 0 <= i < |items|
      ensures Sound(items[i])
    {
      assert PieceWritten(Grammar(), pieces[i], items[i]);
    }
  }

  /**
    A string that formats is made of pieces that are texts with doubled braces and
    fields of the grammar, and the output is what those items print.
   */
  lemma FormattedIsWritten(args: Args, render: Renderer, s: string, out: string)
    returns (pieces: seq<string>, items: seq<Item>)
    requires Formatted(args, render, s) == Ok(out)
    ensures s == Join(pieces) && AllWritten(Grammar(), pieces, items) && Prints(args, render, items, out)
  {
    DirectReadsOnly(args, render);
    DirectWellBehaved(args, render);
    var events, t := AsEvents(DirectHandler(args, render)), DirectTaker(args, render);
    var end := Parse(events, START, s, 0, |s|).value;
    pieces, items := ParsedIsWritten(events, t, Grammar(), START, s, 0, end);
    assert s[0..] == s;
    WrittenIsSound(pieces, items);
    HandledPrints(args, render, items, out);
  }
}
