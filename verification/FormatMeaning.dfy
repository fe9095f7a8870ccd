/**
  What a format string prints, said of the arguments themselves: which of them a field
  renders, and with which specifiers.  The statements look at positions, names and
  the values of the arguments, not at how the formatter finds them.
 */
module FormatMeaning {
  import opened FormatParse
  import opened FormatSpecs
  import opened FormatCompile
  import opened SpecsRoundTrip
  import opened FormatRoundTrip
  import opened FormatItems

  // ------------------------------------------------------------ the arguments

  /** m is where a name is given first. */
  ghost predicate FirstNamed(names: seq<(string, nat)>, name: string, m: nat)
  {
    m < |names| && names[m].0 == name && forall k :: 0 <= k < m ==> names[k].0 != name
  }

  /**
    The argument that an id stands for, after the ids before it: an automatic one counts
    the automatic ones, a number is a position, and a name has its position stored.
   */
  ghost predicate Picks(args: Args, before: seq<ArgId>, id: ArgId, a: Arg)
  {
    match id
    case Automatic => NumAutomatic(before) < |args.values| && a == args.values[NumAutomatic(before)]
    case Index(i) => i < |args.values| && a == args.values[i]
    case Name(name) => exists m: nat :: NamedAt(args, name, m, a)
  }

  ghost predicate NamedAt(args: Args, name: string, m: nat, a: Arg)
  {
    && FirstNamed(args.names, name, m)
    && args.names[m].1 < |args.values| && a == args.values[args.names[m].1]
  }

  /** Automatic and manual numbering in one format string. */
  predicate Mixed(ids: seq<ArgId>) { NumAutomatic(ids) > 0 && AnyIndex(ids) }

  /** An argument's value as a width or precision: an integer, cut to 64 bits, that fits an int. */
  ghost predicate CountIs(a: Arg, n: int)
  {
    && a.kind in {IntType, UIntType, LongLongType, ULongLongType, Int128Type, UInt128Type}
    && 0 <= a.integer && n == a.integer % 0x1_0000_0000_0000_0000 <= 0x7FFF_FFFF
  }

  ghost predicate CountMeans(args: Args, before: seq<ArgId>, count: Count, otherwise: int, n: int)
  {
    match count
    case Absent => n == otherwise
    case Literal(k) => n == k
    case Dynamic(id) => exists a :: Picks(args, before, id, a) && CountIs(a, n)
  }

  // ----------------------------------------------------------- the specifiers

  function CountIds(count: Count): seq<ArgId> { if count.Dynamic? then [count.arg] else [] }

  /** Which types take a sign, an alternate form or zero flag, and a precision. */
  ghost predicate Allowed(y: Syntax, t: ArgType)
  {
    && (y.sign != NoSign ==> t in {IntType, LongLongType, CharType, FloatType, DoubleType, LongDoubleType})
    && (y.alt || y.zero ==> t !in {CStringType, StringType, PointerType})
    && (!y.precision.Absent? ==> t in {FloatType, DoubleType, LongDoubleType, CStringType, StringType})
  }

  /** The fill that is used: the one written or a blank, its first unit replaced by the zero flag. */
  ghost predicate FillMeans(y: Syntax, fill: string)
  {
    var written := if y.fill.Some? then y.fill.value else " ";
    if y.zero && written != [] then fill == ['0'] + written[1..] else fill == written
  }

  /** The specifiers that the renderer is given for an argument of type t. */
  ghost predicate SpecsMean(args: Args, before: seq<ArgId>, y: Syntax, t: ArgType, specs: Specs)
  {
    && Allowed(y, t) && FillMeans(y, specs.fill)
    && specs.align == (if y.zero then Numeric else y.align)
    && specs.sign == y.sign && specs.alt == y.alt && specs.kind == y.kind
    && CountMeans(args, before, y.width, 0, specs.width)
    && CountMeans(args, before + CountIds(y.width), y.precision, -1, specs.precision)
  }

  // ---------------------------------------------------------------- the items

  /** The ids of an item in the order in which they count. */
  function ItemIds(item: Item): seq<ArgId>
  {
    match item
    case Words(_) => []
    case Field(id, specs) =>
      if specs.None? then [id] else [id] + (CountIds(specs.value.width) + CountIds(specs.value.precision))
  }

  function IdsOf(items: seq<Item>): seq<ArgId>
  {
    if items == [] then [] else ItemIds(items[0]) + IdsOf(items[1..])
  }

  /** What an item prints, after the ids before it. */
  ghost predicate ItemMeans(args: Args, render: Renderer, before: seq<ArgId>, item: Item, text: string)
  {
    match item
    case Words(words) => text == words
    case Field(id, specs) => exists a :: Picks(args, before, id, a) && FieldMeans(args, render, before + [id], specs, a, text)
  }

  ghost predicate FieldMeans(args: Args, render: Renderer, before: seq<ArgId>, specs: Option<Syntax>, a: Arg, text: string)
  {
    if specs.None? then render(a, None) == Ok(text)
    else exists sp :: SpecsMean(args, before, specs.value, a.kind, sp) && render(a, Some(sp)) == Ok(text)
  }

  function Join(texts: seq<string>): string
  {
    if texts == [] then "" else texts[0] + Join(texts[1..])
  }

  /** Each item prints its text, after the ids of the items before it. */
  ghost predicate ItemsMean(means: (seq<ArgId>, Item, string) -> bool, before: seq<ArgId>, items: seq<Item>,
                            texts: seq<string>)
    decreases |items|
  {
    if items == [] then texts == []
    else
      && texts != [] && means(before, items[0], texts[0])
      && ItemsMean(means, before + ItemIds(items[0]), items[1..], texts[1..])
  }

  // ------------------------------------------------------------ the numbering

  /** The automatic numbering after some ids. */
  ghost function NextAfter(ids: seq<ArgId>): int { if AnyIndex(ids) then -1 else NumAutomatic(ids) }

  lemma OneMoreId(ids: seq<ArgId>, id: ArgId)
    ensures NumAutomatic(ids + [id]) == NumAutomatic(ids) + if id.Automatic? then 1 else 0
    ensures AnyIndex(ids + [id]) <==> AnyIndex(ids) || id.Index?
  {
    var all := ids + [id];
    assert all[..|all| - 1] == ids && all[|ids|] == id;
    AnyIndexLast(all, ids, id);
  }

  lemma {:induction false} MixedStays(a: seq<ArgId>, b: seq<ArgId>)
    requires Mixed(a)
    ensures Mixed(a + b)
    decreases |b|
  {
    if b == [] {
      assert a + b == a;
    } else {
      OneMoreId(a, b[0]);
      MixedStays(a + [b[0]], b[1..]);
      assert (a + [b[0]]) + b[1..] == a + b;
    }
  }

  /** The error for an id that mixes the two ways of numbering. */
  function MixedError(id: ArgId): Error { if id.Automatic? then ManualToAutomatic else AutomaticToManual }

  // ------------------------------------------------------------------ look-up

  lemma {:induction false} IdIsFirst(names: seq<(string, nat)>, name: string)
    ensures IdOf(names, name).Some? ==>
      exists m: nat :: FirstNamed(names, name, m) && names[m].1 == IdOf(names, name).value
    ensures IdOf(names, name).None? ==> forall k :: 0 <= k < |names| ==> names[k].0 != name
  {
    if names != [] {
      if names[0].0 == name {
        assert FirstNamed(names, name, 0);
      } else {
        IdIsFirst(names[1..], name);
        if IdOf(names, name).Some? {
          var m: nat :| FirstNamed(names[1..], name, m) && names[1..][m].1 == IdOf(names, name).value;
          assert FirstNamed(names, name, m + 1) && names[m + 1].1 == IdOf(names, name).value;
        } else {
          assert forall k :: 1 <= k < |names| ==> names[k] == names[1..][k - 1];
        }
      }
    }
  }

  lemma FirstIsOnly(names: seq<(string, nat)>, name: string, a: nat, b: nat)
    requires FirstNamed(names, name, a) && FirstNamed(names, name, b)
    ensures a == b
  {
  }

  /** A name leads to the position stored with its first occurrence. */
  lemma NamedIs(args: Args, name: string, a: Arg)
    ensures ArgNamed(args, name) == Some(a) <==> exists m: nat :: NamedAt(args, name, m, a)
  {
    IdIsFirst(args.names, name);
    var id := IdOf(args.names, name);
    if id.Some? {
      var m: nat :| FirstNamed(args.names, name, m) && args.names[m].1 == id.value;
      if ArgNamed(args, name) == Some(a) {
        assert NamedAt(args, name, m, a);
      }
      if k: nat :| NamedAt(args, name, k, a) {
        FirstIsOnly(args.names, name, m, k);
      }
    }
  }

  /** The argument of a dynamic count. */
  lemma ArgPicked(args: Args, before: seq<ArgId>, id: ArgId, next: int)
    requires !Mixed(before) && next == NextAfter(before)
    ensures
      var r := DirectArg(args, id, next);
      && (r.Ok? ==> !Mixed(before + [id]) && r.value.1 == NextAfter(before + [id]) && Picks(args, before, id, r.value.0))
      && (r.Err? ==> if Mixed(before + [id]) then r.error == MixedError(id)
                     else r.error == ArgumentNotFound && forall a :: !Picks(args, before, id, a))
      && (forall a :: Picks(args, before, id, a) && r.Ok? ==> a == r.value.0)
  {
    OneMoreId(before, id);
    if id.Name? {
      forall a
        ensures ArgNamed(args, id.name) == Some(a) <==> Picks(args, before, id, a)
      {
        NamedIs(args, id.name, a);
      }
    }
  }

  /** The argument of a field. */
  lemma FieldPicked(args: Args, before: seq<ArgId>, id: ArgId, d: Direct)
    requires !Mixed(before) && d.next == NextAfter(before)
    ensures
      var r, arg := DirectArgId(args, d, id), DirectArg(args, id, d.next);
      && (arg.Ok? ==> r.Ok? && r.value.0 == d.(next := arg.value.1) && ArgAt(args, r.value.1) == Some(arg.value.0))
      && (arg.Err? && r.Ok? ==> ArgAt(args, r.value.1) == None)
  {
  }

  // ------------------------------------------------------- from the formatter

  /** The checks that the formatter makes are the ones the types need. */
  lemma ChecksAllow(y: Syntax, t: ArgType)
    ensures Allowed(y, t) <==>
      && (y.sign != NoSign ==> CheckSign(t).Ok?) && (y.alt || y.zero ==> RequireNumeric(t).Ok?)
      && (!y.precision.Absent? ==> CheckPrecision(t).Ok?)
  {
  }

  /** Apart from width and precision, the specifiers meant are the plain ones. */
  lemma PlainMeant(args: Args, before: seq<ArgId>, y: Syntax, t: ArgType, specs: Specs)
    ensures SpecsMean(args, before, y, t, specs) <==>
      && Allowed(y, t) && specs == PlainSpecs(y).(width := specs.width, precision := specs.precision)
      && CountMeans(args, before, y.width, 0, specs.width)
      && CountMeans(args, before + CountIds(y.width), y.precision, -1, specs.precision)
  {
  }

  lemma DirectSpecsAre(args: Args, t: ArgType, y: Syntax, next: int)
    requires y.error.None?
    ensures
      var r, width := DirectSpecs(args, t, y, next), DirectCount(args, y.width, CountOr(y.width, 0), next);
      if !Allowed(y, t) || width.Err? then r.Err? else
      var precision := DirectCount(args, y.precision, CountOr(y.precision, -1), width.value.1);
      if precision.Err? then r.Err? else
      r == Ok((PlainSpecs(y).(width := width.value.0, precision := precision.value.0), precision.value.1))
  {
    ChecksAllow(y, t);
  }

  function CountOr(count: Count, otherwise: int): int { if count.Literal? then count.count else otherwise }

  /** Why a dynamic count cannot be had. */
  ghost predicate CountFails(args: Args, before: seq<ArgId>, id: ArgId, error: Error)
  {
    if Mixed(before + [id]) then error == MixedError(id)
    else if error == ArgumentNotFound then forall a :: !Picks(args, before, id, a)
    else exists a :: Picks(args, before, id, a) && NoCount(a, error)
  }

  ghost predicate NoCount(a: Arg, error: Error)
  {
    if a.kind !in {IntType, UIntType, LongLongType, ULongLongType, Int128Type, UInt128Type} then error == CountNotInteger
    else if a.integer < 0 then error == NegativeCount
    else a.integer % 0x1_0000_0000_0000_0000 > 0x7FFF_FFFF && error == NumberTooBig
  }

  /** What resolving a count gives, and that nothing else is meant. */
  ghost predicate CountSettled(args: Args, before: seq<ArgId>, count: Count, otherwise: int, r: Result<(int, int)>)
  {
    var ids := before + CountIds(count);
    && (r.Ok? ==> !Mixed(ids) && r.value.1 == NextAfter(ids) && CountMeans(args, before, count, otherwise, r.value.0))
    && (r.Err? ==> Mixed(ids) || forall n :: !CountMeans(args, before, count, otherwise, n))
    && (r.Err? ==> count.Dynamic? && CountFails(args, before, count.arg, r.error))
    && (forall n :: r.Ok? && CountMeans(args, before, count, otherwise, n) ==> n == r.value.0)
  }

  lemma CountTaken(args: Args, before: seq<ArgId>, count: Count, otherwise: int, next: int)
    requires !Mixed(before) && next == NextAfter(before)
    ensures CountSettled(args, before, count, otherwise, DirectCount(args, count, CountOr(count, otherwise), next))
  {
    if count.Dynamic? {
      ArgPicked(args, before, count.arg, next);
      var arg := DirectArg(args, count.arg, next);
      if arg.Ok? && DynamicCount(Some(arg.value.0)).Err? {
        assert NoCount(arg.value.0, DynamicCount(Some(arg.value.0)).error);
      }
    } else {
      assert before + CountIds(count) == before;
    }
  }

  /** The same for all the specifiers. */
  ghost predicate SpecsSettled(args: Args, before: seq<ArgId>, y: Syntax, t: ArgType, r: Result<(Specs, int)>)
  {
    var ids := before + (CountIds(y.width) + CountIds(y.precision));
    && (r.Ok? ==> !Mixed(ids) && r.value.1 == NextAfter(ids) && SpecsMean(args, before, y, t, r.value.0))
    && (r.Err? ==> Mixed(ids) || forall sp :: !SpecsMean(args, before, y, t, sp))
    && (forall sp :: r.Ok? && SpecsMean(args, before, y, t, sp) ==> sp == r.value.0)
  }

  lemma SpecsTaken(args: Args, before: seq<ArgId>, y: Syntax, t: ArgType, next: int)
    requires !Mixed(before) && next == NextAfter(before) && y.error.None?
    ensures SpecsSettled(args, before, y, t, DirectSpecs(args, t, y, next))
  {
    var mid, width := before + CountIds(y.width), DirectCount(args, y.width, CountOr(y.width, 0), next);
    CountTaken(args, before, y.width, 0, next);
    if Mixed(mid) {
      MixedStays(mid, CountIds(y.precision));
    }
    var precision := Err(InvalidFormat);
    if width.Ok? {
      precision := DirectCount(args, y.precision, CountOr(y.precision, -1), width.value.1);
      CountTaken(args, mid, y.precision, -1, width.value.1);
    }
    DirectSpecsAre(args, t, y, next);
    Settle(args, before, y, t, width, precision, DirectSpecs(args, t, y, next));
  }

  lemma Settle(args: Args, before: seq<ArgId>, y: Syntax, t: ArgType, width: Result<(int, int)>,
               precision: Result<(int, int)>, r: Result<(Specs, int)>)
    requires CountSettled(args, before, y.width, 0, width)
    requires width.Ok? ==> CountSettled(args, before + CountIds(y.width), y.precision, -1, precision)
    requires Mixed(before + CountIds(y.width)) ==> Mixed((before + CountIds(y.width)) + CountIds(y.precision))
    requires
      if !Allowed(y, t) || width.Err? || precision.Err? then r.Err?
      else r == Ok((PlainSpecs(y).(width := width.value.0, precision := precision.value.0), precision.value.1))
    ensures SpecsSettled(args, before, y, t, r)
  {
    assert (before + CountIds(y.width)) + CountIds(y.precision)
        == before + (CountIds(y.width) + CountIds(y.precision));
    forall sp
      ensures SpecsMean(args, before, y, t, sp) <==>
        && Allowed(y, t) && sp == PlainSpecs(y).(width := sp.width, precision := sp.precision)
        && CountMeans(args, before, y.width, 0, sp.width)
        && CountMeans(args, before + CountIds(y.width), y.precision, -1, sp.precision)
    {
      PlainMeant(args, before, y, t, sp);
    }
  }

  // --------------------------------------------------------------- the fields

  /** An item whose specifiers were read without an error. */
  predicate Sound(item: Item) { item.Field? && item.specs.Some? ==> item.specs.value.error.None? }

  /** What taking an item does: it prints what is meant, and fails only where nothing is. */
  ghost predicate ItemSettled(means: (seq<ArgId>, Item, string) -> bool, before: seq<ArgId>, item: Item, d: Direct,
                              r: Result<Direct>)
  {
    var ids := before + ItemIds(item);
    && (r.Ok? ==> !Mixed(ids) && exists text :: means(before, item, text))
    && (r.Err? ==> Mixed(ids) || forall text :: !means(before, item, text))
    && (forall text :: r.Ok? && means(before, item, text) ==> r.value == Direct(d.out + text, NextAfter(ids)))
  }

  ghost function Meaning(args: Args, render: Renderer): (seq<ArgId>, Item, string) -> bool
  {
    (before: seq<ArgId>, item: Item, text: string) => ItemMeans(args, render, before, item, text)
  }

  lemma WordsTaken(args: Args, render: Renderer, before: seq<ArgId>, words: string, d: Direct)
    requires !Mixed(before) && d.next == NextAfter(before)
    ensures ItemSettled(Meaning(args, render), before, Words(words), d, Ok(d.(out := d.out + words)))
  {
    assert before + ItemIds(Words(words)) == before;
    assert Meaning(args, render)(before, Words(words), words);
  }

  /** Rendering a picked argument. */
  ghost predicate FieldSettled(args: Args, render: Renderer, before: seq<ArgId>, specs: Option<Syntax>, a: Arg, d: Direct,
                               ids: seq<ArgId>, r: Result<Direct>)
  {
    && (r.Ok? ==> !Mixed(ids) && exists text :: FieldMeans(args, render, before, specs, a, text))
    && (r.Err? ==> Mixed(ids) || forall text :: !FieldMeans(args, render, before, specs, a, text))
    && (forall text :: r.Ok? && FieldMeans(args, render, before, specs, a, text) ==>
          r.value == Direct(d.out + text, NextAfter(ids)))
  }

  lemma PlainRendered(args: Args, render: Renderer, before: seq<ArgId>, a: Arg, d: Direct)
    requires !Mixed(before) && d.next == NextAfter(before)
    ensures FieldSettled(args, render, before, None, a, d, before, DirectRender(render, d, a, None))
  {
    var text := render(a, None);
    assert text.Ok? ==> FieldMeans(args, render, before, None, a, text.value);
  }

  lemma SpecsRendered(args: Args, render: Renderer, before: seq<ArgId>, y: Syntax, a: Arg, d: Direct)
    requires !Mixed(before) && d.next == NextAfter(before) && y.error.None?
    ensures FieldSettled(args, render, before, Some(y), a, d, before + (CountIds(y.width) + CountIds(y.precision)),
                         DirectField(args, render, d, a, y, true))
  {
    var specs := DirectSpecs(args, a.kind, y, d.next);
    SpecsTaken(args, before, y, a.kind, d.next);
    if specs.Ok? {
      var text := render(a, Some(specs.value.0));
      assert text.Ok? ==> FieldMeans(args, render, before, Some(y), a, text.value);
    }
  }

  lemma FieldTaken(args: Args, render: Renderer, before: seq<ArgId>, id: ArgId, specs: Option<Syntax>, d: Direct)
    requires !Mixed(before) && d.next == NextAfter(before) && Sound(Field(id, specs))
    ensures ItemSettled(Meaning(args, render), before, Field(id, specs), d, DirectTake(args, render, d, id, specs))
  {
    ArgPicked(args, before, id, d.next);
    FieldPicked(args, before, id, d);
    var arg, item := DirectArg(args, id, d.next), Field(id, specs);
    var ids := before + ItemIds(item);
    if arg.Ok? {
      var a, d1 := arg.value.0, d.(next := arg.value.1);
      if specs.None? {
        PlainRendered(args, render, before + [id], a, d1);
      } else {
        SpecsRendered(args, render, before + [id], specs.value, a, d1);
        assert (before + [id]) + (CountIds(specs.value.width) + CountIds(specs.value.precision)) == ids;
      }
      PickedSettled(args, render, before, id, specs, a, d, DirectTake(args, render, d, id, specs));
    } else if Mixed(before + [id]) && specs.Some? {
      MixedStays(before + [id], CountIds(specs.value.width) + CountIds(specs.value.precision));
      assert (before + [id]) + (CountIds(specs.value.width) + CountIds(specs.value.precision)) == ids;
    }
  }

  lemma PickedSettled(args: Args, render: Renderer, before: seq<ArgId>, id: ArgId, specs: Option<Syntax>, a: Arg,
                      d: Direct, r: Result<Direct>)
    requires Picks(args, before, id, a) && forall b :: Picks(args, before, id, b) ==> b == a
    requires FieldSettled(args, render, before + [id], specs, a, d, before + ItemIds(Field(id, specs)), r)
    ensures ItemSettled(Meaning(args, render), before, Field(id, specs), d, r)
  {
    var item := Field(id, specs);
    forall text
      ensures Meaning(args, render)(before, item, text) <==> FieldMeans(args, render, before + [id], specs, a, text)
    {
    }
    if r.Ok? {
      var text :| FieldMeans(args, render, before + [id], specs, a, text);
      assert Meaning(args, render)(before, item, text);
    }
  }

  lemma ItemTaken(args: Args, render: Renderer, before: seq<ArgId>, item: Item, d: Direct)
    requires !Mixed(before) && d.next == NextAfter(before) && Sound(item)
    ensures ItemSettled(Meaning(args, render), before, item, d, HandledOne(DirectTaker(args, render), d, item))
  {
    match item
    case Words(words) => WordsTaken(args, render, before, words, d);
    case Field(id, specs) => FieldTaken(args, render, before, id, specs, d);
  }

  // ---------------------------------------------------------------- the lists

  ghost predicate Settles(t: Taker<Direct>, means: (seq<ArgId>, Item, string) -> bool, before: seq<ArgId>, item: Item,
                          d: Direct)
  {
    !Mixed(before) && d.next == NextAfter(before) && Sound(item) ==>
      ItemSettled(means, before, item, d, HandledOne(t, d, item))
  }

  predicate AllSound(items: seq<Item>) { forall i :: 0 <= i < |items| ==> Sound(items[i]) }

  lemma IdsAfter(before: seq<ArgId>, items: seq<Item>)
    requires items != []
    ensures before + IdsOf(items) == (before + ItemIds(items[0])) + IdsOf(items[1..])
    ensures Mixed(before + ItemIds(items[0])) ==> Mixed(before + IdsOf(items))
  {
    MixedBefore(before, ItemIds(items[0]), IdsOf(items[1..]));
  }

  lemma MixedBefore(a: seq<ArgId>, b: seq<ArgId>, c: seq<ArgId>)
    ensures a + (b + c) == (a + b) + c
    ensures Mixed(a + b) ==> Mixed((a + b) + c)
  {
    var ab := a + b;
    if Mixed(ab) {
      MixedStays(ab, c);
    }
  }

  /** One item, from the state before it to the state after it. */
  lemma OnePrinted(t: Taker<Direct>, means: (seq<ArgId>, Item, string) -> bool, before: seq<ArgId>, item: Item, d: Direct)
    returns (text: string)
    requires Settles(t, means, before, item, d) && HandledOne(t, d, item).Ok?
    requires !Mixed(before) && d.next == NextAfter(before) && Sound(item)
    ensures !Mixed(before + ItemIds(item)) && means(before, item, text)
    ensures HandledOne(t, d, item).value == Direct(d.out + text, NextAfter(before + ItemIds(item)))
  {
    text :| means(before, item, text);
  }

  lemma OneForced(t: Taker<Direct>, means: (seq<ArgId>, Item, string) -> bool, before: seq<ArgId>, item: Item, d: Direct,
                  text: string)
    requires Settles(t, means, before, item, d) && means(before, item, text) && !Mixed(before + ItemIds(item))
    requires !Mixed(before) && d.next == NextAfter(before) && Sound(item)
    ensures HandledOne(t, d, item) == Ok(Direct(d.out + text, NextAfter(before + ItemIds(item))))
  {
  }

  lemma JoinFirst(out: string, texts: seq<string>)
    requires texts != []
    ensures out + Join(texts) == (out + texts[0]) + Join(texts[1..])
  {
  }

  /** A list that is handled prints what its items mean. */
  lemma {:induction false} ItemsPrinted(t: Taker<Direct>, means: (seq<ArgId>, Item, string) -> bool, before: seq<ArgId>,
                                        items: seq<Item>, d: Direct) returns (texts: seq<string>)
    requires forall b, item, d1 :: Settles(t, means, b, item, d1)
    requires !Mixed(before) && d.next == NextAfter(before) && AllSound(items) && Handled(t, d, items).Ok?
    ensures !Mixed(before + IdsOf(items)) && ItemsMean(means, before, items, texts)
    ensures Handled(t, d, items).value.out == d.out + Join(texts)
    decreases |items|
  {
    if items == [] {
      texts := [];
      assert before + IdsOf(items) == before;
    } else {
      var text := OnePrinted(t, means, before, items[0], d);
      IdsAfter(before, items);
      var rest := ItemsPrinted(t, means, before + ItemIds(items[0]), items[1..], HandledOne(t, d, items[0]).value);
      texts := [text] + rest;
      assert texts[1..] == rest;
      JoinFirst(d.out, texts);
    }
  }

  /** And a list whose items mean something prints that. */
  lemma {:induction false} ItemsForced(t: Taker<Direct>, means: (seq<ArgId>, Item, string) -> bool, before: seq<ArgId>,
                                       items: seq<Item>, d: Direct, texts: seq<string>)
    requires forall b, item, d1 :: Settles(t, means, b, item, d1)
    requires !Mixed(before) && d.next == NextAfter(before) && AllSound(items)
    requires !Mixed(before + IdsOf(items)) && ItemsMean(means, before, items, texts)
    ensures Handled(t, d, items).Ok? && Handled(t, d, items).value.out == d.out + Join(texts)
    decreases |items|
  {
    if items != [] {
      IdsAfter(before, items);
      OneForced(t, means, before, items[0], d, texts[0]);
      ItemsForced(t, means, before + ItemIds(items[0]), items[1..], HandledOne(t, d, items[0]).value, texts[1..]);
      JoinFirst(d.out, texts);
    }
  }

  lemma DirectSettles(args: Args, render: Renderer)
    ensures forall b, item, d :: Settles(DirectTaker(args, render), Meaning(args, render), b, item, d)
  {
    forall b, item, d
      ensures Settles(DirectTaker(args, render), Meaning(args, render), b, item, d)
    {
      if !Mixed(b) && d.next == NextAfter(b) && Sound(item) {
        ItemTaken(args, render, b, item, d);
      }
    }
  }

  // -------------------------------------------------------------- the theorem

  /** out is what the items print, one after the other, and their ids are not mixed. */
  ghost predicate Prints(args: Args, render: Renderer, items: seq<Item>, out: string)
  {
    && !Mixed(IdsOf(items))
    && exists texts :: ItemsMean(Meaning(args, render), [], items, texts) && out == Join(texts)
  }

  /** Handling a list succeeds exactly where it prints something, and then with that output. */
  lemma HandledPrints(args: Args, render: Renderer, items: seq<Item>, out: string)
    requires AllSound(items)
    ensures
      var r := Handled(DirectTaker(args, render), START, items);
      r.Ok? && r.value.out == out <==> Prints(args, render, items, out)
  {
    var t, means := DirectTaker(args, render), Meaning(args, render);
    DirectSettles(args, render);
    assert [] + IdsOf(items) == IdsOf(items);
    var r := Handled(t, START, items);
    if r.Ok? && r.value.out == out {
      var texts := ItemsPrinted(t, means, [], items, START);
      assert out == Join(texts);
    }
    if Prints(args, render, items, out) {
      var texts :| ItemsMean(means, [], items, texts) && out == Join(texts);
      ItemsForced(t, means, [], items, START, texts);
    }
  }

  lemma {:induction false} LegibleIsSound(items: seq<Item>)
    requires AllLegible(Written(), items)
    ensures AllSound(items)
  {
    if items != [] {
      LegibleIsSound(items[1..]);
      assert LegibleBefore(Written(), items[0], ShowItems(Written(), items[1..]));
      assert forall i :: 1 <= i < |items| ==> items[i] == items[1..][i - 1];
    }
  }

  /**
    The string written from a list of texts and fields formats to an output if and only
    if that is what the list prints: the k-th automatic field the k-th argument, a
    number the argument at that position, a name the argument stored with it, each with
    the specifiers that were written.
   */
  lemma FormatsAsMeant(args: Args, render: Renderer, items: seq<Item>, out: string)
    requires AllLegible(Written(), items)
    ensures Formatted(args, render, ShowItems(Written(), items)) == Ok(out) <==> Prints(args, render, items, out)
  {
    FormatsItems(args, render, items);
    LegibleIsSound(items);
    HandledPrints(args, render, items, out);
  }
}
