/**
  The meaning of format strings: a string written from a list of texts and fields
  formats as the texts and the rendered arguments of the fields, in order.
 */
module FormatItems {
  import opened FormatParse
  import opened FormatSpecs
  import opened FormatCompile
  import opened SpecsRoundTrip
  import opened FormatRoundTrip

  // ----------------------------------------------------------------- notation

  function FieldText(id: ArgId, specs: Option<Syntax>): string
  {
    if specs.None? then "{" + (ShowId(id) + "}") else "{" + (ShowId(id) + (":" + (Show(specs.value) + "}")))
  }

  /**
    Fields whose ids and specifiers have a notation.  A field with a colon and nothing
    after it must not be followed by an alignment character.
   */
  predicate FieldLegible(id: ArgId, specs: Option<Syntax>, rest: string)
  {
    && Nameable(id)
    && (specs.Some? ==> Writable(specs.value)
                        && (Show(specs.value) == "" && rest != "" ==> AlignOf(rest[0]) == NoAlign))
  }

  function Written(): Notation
  {
    Notation((id: ArgId, specs: Option<Syntax>) => FieldText(id, specs),
             (id: ArgId, specs: Option<Syntax>, rest: string) => FieldLegible(id, specs, rest))
  }

  // ------------------------------------------------------------ reading fields

  /** After its opening brace, a field starts with its id. */
  lemma AfterBrace(shown: string, end: string, rest: string)
    requires end != ""
    ensures
      var s := ("{" + (shown + end)) + rest;
      && |s| > 1 && s[0] == '{' && s[1..] == shown + (end + rest)
      && s[1] == (if shown != "" then shown[0] else end[0]) && s[1 + |shown|] == end[0]
  {
    var s := ("{" + (shown + end)) + rest;
    assert s == "{" + (shown + (end + rest));
    assert s[1..] == shown + (end + rest);
    assert s[1] == s[1..][0] && s[1 + |shown|] == s[1..][|shown|];
  }

  lemma IdHead(id: ArgId)
    requires Nameable(id) && ShowId(id) != ""
    ensures ShowId(id)[0] != '{' && ShowId(id)[0] != '}'
  {
  }

  /** What a handler makes of the argument id, then of the rest of the field. */
  function Then<H>(r: Result<(H, int)>, next: (H, int) -> Result<H>): Result<H>
  {
    if r.Err? then Err(r.error) else next(r.value.0, r.value.1)
  }

  function WithLength<H>(r: Result<H>, n: nat): Result<(H, nat)>
  {
    if r.Err? then Err(r.error) else Ok((r.value, n))
  }

  /** A field without specifiers. */
  lemma PlainField<H>(handler: Handler<H>, h: H, id: ArgId, rest: string)
    requires Nameable(id)
    ensures
      var s := FieldText(id, None);
      && s + rest != "" && (s + rest)[0] == '{'
      && ParseReplacement(handler, h, s + rest) ==
         WithLength(Then(handler.onArgId(h, id), handler.onReplacement), |s|)
  {
    AfterBrace(ShowId(id), "}", rest);
    ReadId(id, "}" + rest);
    if ShowId(id) != "" {
      IdHead(id);
    } else {
      NoText(id);
    }
  }

  lemma NoText(id: ArgId)
    requires Nameable(id) && ShowId(id) == ""
    ensures id == Automatic
  {
    if id.Index? {
      DigitsSpelled(id.index);
    }
  }

  /** The handler reads specifiers to their end. */
  ghost predicate ReadsTo<H>(handler: Handler<H>, take: (H, int) -> Result<H>, shown: string, rest: string, h: H, i: int)
  {
    handler.onSpecs(h, i, shown + ("}" + rest)) == WithLength(take(h, i), |shown|)
  }

  /** A field with specifiers. */
  lemma SpecsField<H(!new)>(handler: Handler<H>, h: H, id: ArgId, shown: string, rest: string,
                            take: (H, int) -> Result<H>)
    requires Nameable(id) && forall h1, i :: ReadsTo(handler, take, shown, rest, h1, i)
    ensures
      var s := "{" + (ShowId(id) + (":" + (shown + "}")));
      && s + rest != "" && (s + rest)[0] == '{'
      && ParseReplacement(handler, h, s + rest) == WithLength(Then(handler.onArgId(h, id), take), |s|)
  {
    var r := handler.onArgId(h, id);
    FieldHead(handler, h, id, ":" + (shown + "}"), rest);
    if r.Ok? {
      SpecsTail(handler, r.value.0, r.value.1, ShowId(id), shown, rest, take);
    }
  }

  lemma SpecsTail<H(!new)>(handler: Handler<H>, h: H, i: int, id: string, shown: string, rest: string,
                           take: (H, int) -> Result<H>)
    requires forall h1, i :: ReadsTo(handler, take, shown, rest, h1, i)
    ensures
      var s := ("{" + (id + (":" + (shown + "}")))) + rest;
      && 1 + |id| <= |s|
      && AfterArgId(handler, h, i, s, 1 + |id|) == WithLength(take(h, i), |s| - |rest|)
  {
    SpecsPosition(("{" + (id + (":" + (shown + "}")))) + rest, id, shown, rest);
    assert ReadsTo(handler, take, shown, rest, h, i);
  }

  /** The id of a field, in front of a colon. */
  lemma FieldHead<H>(handler: Handler<H>, h: H, id: ArgId, end: string, rest: string)
    requires Nameable(id) && end != "" && end[0] == ':'
    ensures
      var s, r := ("{" + (ShowId(id) + end)) + rest, handler.onArgId(h, id);
      && s != "" && s[0] == '{' && 1 + |ShowId(id)| <= |s|
      && ParseReplacement(handler, h, s) ==
         if r.Err? then Err(r.error) else AfterArgId(handler, r.value.0, r.value.1, s, 1 + |ShowId(id)|)
  {
    AfterBrace(ShowId(id), end, rest);
    ReadId(id, end + rest);
    if ShowId(id) != "" {
      IdHead(id);
    }
  }

  lemma SpecsPosition(s: string, id: string, specs: string, rest: string)
    requires s == ("{" + (id + (":" + (specs + "}")))) + rest
    ensures
      var at := 1 + |id|;
      && at + 1 + |specs| < |s| && s[at] == ':' && s[at + 1..] == specs + ("}" + rest) && s[at + 1 + |specs|] == '}'
  {
    var at := 1 + |id|;
    assert s == ("{" + id + ":") + (specs + ("}" + rest));
    assert s[at + 1..] == specs + ("}" + rest);
    assert s[at + 1 + |specs|] == s[at + 1..][|specs|];
  }

  // -------------------------------------------------------- direct formatting

  /** What the direct formatter does for a field: look the argument up, resolve the specifiers, render. */
  function DirectTake(args: Args, render: Renderer, h: Direct, id: ArgId, specs: Option<Syntax>): Result<Direct>
  {
    var (h1, i) :- DirectArgId(args, h, id);
    if specs.None? then DirectReplacement(args, render, h1, i) else DirectTakeSpecs(args, render, h1, i, specs.value)
  }

  function DirectTakeSpecs(args: Args, render: Renderer, h: Direct, i: int, y: Syntax): Result<Direct>
  {
    var arg := ArgAt(args, i);
    if arg.None? then Err(ArgumentNotFound) else DirectField(args, render, h, arg.value, y, true)
  }

  function DirectTaker(args: Args, render: Renderer): Taker<Direct>
  {
    Taker((d: Direct, x: string) => d.(out := d.out + x),
          (d: Direct, id: ArgId, specs: Option<Syntax>) => DirectTake(args, render, d, id, specs))
  }

  /** Only the specifiers themselves matter, not how long their notation is. */
  lemma LengthIrrelevant(args: Args, render: Renderer, h: Direct, arg: Arg, y: Syntax, n: nat)
    ensures DirectField(args, render, h, arg, y.(n := n), true) == DirectField(args, render, h, arg, y, true)
  {
    assert PlainSpecs(y.(n := n)) == PlainSpecs(y);
  }

  lemma DirectReadsSpecs(args: Args, render: Renderer, h: Direct, i: int, y: Syntax, rest: string)
    requires Writable(y) && (Show(y) == "" && rest != "" ==> AlignOf(rest[0]) == NoAlign)
    ensures DirectOnSpecs(args, render, h, i, Show(y) + ("}" + rest)) ==
            WithLength(DirectTakeSpecs(args, render, h, i, y), |Show(y)|)
  {
    var s := Show(y) + ("}" + rest);
    ParseShow(y, "}" + rest);
    assert ClosedAt(s, |Show(y)|);
    if ArgAt(args, i).Some? {
      ShortcutIsField(args, render, h, i, s);
      LengthIrrelevant(args, render, h, ArgAt(args, i).value, y, |Show(y)|);
    }
  }

  lemma DirectTakesPlain(args: Args, render: Renderer, h: Direct, id: ArgId, rest: string)
    requires Nameable(id)
    ensures
      var s := FieldText(id, None);
      && s + rest != "" && (s + rest)[0] == '{'
      && ParseReplacement(DirectHandler(args, render), h, s + rest) ==
         WithLength(DirectTake(args, render, h, id, None), |s|)
  {
    PlainField(DirectHandler(args, render), h, id, rest);
  }

  lemma DirectTakesSpecs(args: Args, render: Renderer, h: Direct, id: ArgId, y: Syntax, rest: string)
    requires FieldLegible(id, Some(y), rest)
    ensures
      var s := FieldText(id, Some(y));
      && s + rest != "" && (s + rest)[0] == '{'
      && ParseReplacement(DirectHandler(args, render), h, s + rest) ==
         WithLength(DirectTake(args, render, h, id, Some(y)), |s|)
  {
    var handler := DirectHandler(args, render);
    var take := (h1: Direct, i: int) => DirectTakeSpecs(args, render, h1, i, y);
    forall h1, i
      ensures ReadsTo(handler, take, Show(y), rest, h1, i)
    {
      DirectReadsSpecs(args, render, h1, i, y, rest);
    }
    SpecsField(handler, h, id, Show(y), rest, take);
  }

  /** The direct formatter takes every item that has been written out. */
  lemma DirectTakes(args: Args, render: Renderer)
    ensures Takes(AsEvents(DirectHandler(args, render)), Written(), DirectTaker(args, render))
  {
    DirectWellBehaved(args, render);
    var events, t := AsEvents(DirectHandler(args, render)), DirectTaker(args, render);
    forall d, x, y
      ensures Joins(t, d, x, y)
    {
      assert (d.out + x) + y == d.out + (x + y);
    }
    forall d, id, specs, rest
      ensures TakesField(events, Written(), t, d, id, specs, rest)
    {
      DirectTakesField(args, render, d, id, specs, rest);
    }
  }

  lemma DirectTakesField(args: Args, render: Renderer, d: Direct, id: ArgId, specs: Option<Syntax>, rest: string)
    ensures TakesField(AsEvents(DirectHandler(args, render)), Written(), DirectTaker(args, render), d, id, specs, rest)
  {
    if FieldLegible(id, specs, rest) {
      if specs.None? {
        DirectTakesPlain(args, render, d, id, rest);
      } else {
        DirectTakesSpecs(args, render, d, id, specs.value, rest);
      }
      OnFieldIs(DirectHandler(args, render), d, FieldText(id, specs) + rest);
    }
  }

  // ------------------------------------------------------------- the theorems

  /** Formatting a string written from items is handling the items, in order, up to the first error. */
  lemma FormatsItems(args: Args, render: Renderer, items: seq<Item>)
    requires AllLegible(Written(), items)
    ensures
      var meant := Handled(DirectTaker(args, render), START, items);
      Formatted(args, render, ShowItems(Written(), items)) == if meant.Err? then Err(meant.error) else Ok(meant.value.out)
  {
    DirectTakes(args, render);
    ParseItems(AsEvents(DirectHandler(args, render)), Written(), DirectTaker(args, render), START, items);
  }

  /** In particular, text with its braces doubled formats as itself. */
  lemma EscapedText(args: Args, render: Renderer, text: string)
    ensures Formatted(args, render, Escape(text)) == Ok(text)
  {
    var items := [Words(text)];
    assert items[1..] == [];
    assert ShowItems(Written(), items) == Escape(text);
    FormatsItems(args, render, items);
    assert "" + text == text;
  }
}
