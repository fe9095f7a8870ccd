/**
  What the parser of format strings recovers.  A list of texts and fields, written out
  with the braces of the texts doubled, is handled as exactly that list.
 */
module FormatRoundTrip {
  import opened FormatParse
  import opened FormatSpecs

  // ---------------------------------------------------------------- notation

  /** Text with every brace doubled. */
  function Escape(t: string): string
  {
    if t == [] then [] else (if IsBrace(t[0]) then [t[0], t[0]] else [t[0]]) + Escape(t[1..])
  }

  datatype Item = Words(text: string) | Field(id: ArgId, specs: Option<Syntax>)

  /** A notation for fields, and which fields can be written in front of a given string. */
  datatype Notation = Notation(show: (ArgId, Option<Syntax>) -> string, legible: (ArgId, Option<Syntax>, string) -> bool)

  function ShowItem(n: Notation, item: Item): string
  {
    match item
    case Words(text) => Escape(text)
    case Field(id, specs) => n.show(id, specs)
  }

  function ShowItems(n: Notation, items: seq<Item>): string
  {
    if items == [] then "" else ShowItem(n, items[0]) + ShowItems(n, items[1..])
  }

  predicate AllLegible(n: Notation, items: seq<Item>)
  {
    items == [] || (LegibleBefore(n, items[0], ShowItems(n, items[1..])) && AllLegible(n, items[1..]))
  }

  predicate LegibleBefore(n: Notation, item: Item, rest: string)
  {
    item.Field? ==> n.legible(item.id, item.specs, rest)
  }

  // -------------------------------------------------- handlers that take items

  /** How a handler takes text and a field. */
  datatype Taker<!H> = Taker(add: (H, string) -> H, take: (H, ArgId, Option<Syntax>) -> Result<H>)

  ghost predicate AddsText<H>(events: Events<H>, t: Taker<H>, h: H, x: string)
  {
    events.onText(h, x) == Ok(t.add(h, x))
  }

  ghost predicate Joins<H>(t: Taker<H>, h: H, x: string, y: string)
  {
    t.add(t.add(h, x), y) == t.add(h, x + y)
  }

  ghost predicate AddsBrace<H>(events: Events<H>, t: Taker<H>, h: H, s: string)
  {
    |s| >= 2 && s[0] == '{' && s[1] == '{' ==> events.onField(h, s) == Ok((t.add(h, "{"), 2))
  }

  /** A field that has been written out is taken, whatever follows it. */
  ghost predicate TakesField<H>(events: Events<H>, n: Notation, t: Taker<H>, h: H, id: ArgId, specs: Option<Syntax>,
                                rest: string)
  {
    n.legible(id, specs, rest) ==>
      var shown, r := n.show(id, specs), t.take(h, id, specs);
      && shown != "" && shown[0] == '{'
      && events.onField(h, shown + rest) == if r.Err? then Err(r.error) else Ok((r.value, |shown|))
  }

  ghost predicate Takes<H(!new)>(events: Events<H>, n: Notation, t: Taker<H>)
  {
    && WellBehaved(events)
    && (forall h, x :: AddsText(events, t, h, x))
    && (forall h, x, y :: Joins(t, h, x, y))
    && (forall h, s :: AddsBrace(events, t, h, s))
    && (forall h, id, specs, rest :: TakesField(events, n, t, h, id, specs, rest))
  }

  function HandledOne<H>(t: Taker<H>, h: H, item: Item): Result<H>
  {
    match item
    case Words(text) => Ok(t.add(h, text))
    case Field(id, specs) => t.take(h, id, specs)
  }

  /** What a list of items means to a handler. */
  function Handled<H>(t: Taker<H>, h: H, items: seq<Item>): Result<H>
  {
    if items == [] then Ok(h)
    else
      var h1 :- HandledOne(t, h, items[0]);
      Handled(t, h1, items[1..])
  }

  // -------------------------------------------------------------------- text

  /** A character that is not a brace can be taken on its own. */
  lemma OneChar<H(!new)>(events: Events<H>, n: Notation, t: Taker<H>, h: H, s: string, from: nat)
    requires Takes(events, n, t) && from < |s| && !IsBrace(s[from])
    ensures Parse(events, h, s, from, |s|) == Parse(events, t.add(h, [s[from]]), s, from + 1, |s|)
  {
    var i := NextBrace(s, from, |s|);
    assert i == NextBrace(s, from + 1, |s|);
    var stop := if i < |s| && s[i] == '}' then i + 1 else i;
    SplitText(events, n, t, h, s, from, stop);
    var h1 := t.add(h, [s[from]]);
    if i == |s| {
      ParseText(events, h, s, from, |s|);
      ParseText(events, h1, s, from + 1, |s|);
    } else if s[i] == '}' {
      ParseClosing(events, h, s, from, i, |s|);
      ParseClosing(events, h1, s, from + 1, i, |s|);
    } else {
      ParseField(events, h, s, from, i, |s|);
      ParseField(events, h1, s, from + 1, i, |s|);
    }
  }

  lemma SplitText<H(!new)>(events: Events<H>, n: Notation, t: Taker<H>, h: H, s: string, from: nat, stop: nat)
    requires Takes(events, n, t) && from < stop <= |s|
    ensures events.onText(h, s[from..stop]) == events.onText(t.add(h, [s[from]]), s[from + 1..stop])
  {
    assert AddsText(events, t, h, s[from..stop]);
    assert AddsText(events, t, t.add(h, [s[from]]), s[from + 1..stop]);
    assert Joins(t, h, [s[from]], s[from + 1..stop]);
    assert [s[from]] + s[from + 1..stop] == s[from..stop];
  }

  /** A doubled brace. */
  lemma OneBrace<H(!new)>(events: Events<H>, n: Notation, t: Taker<H>, h: H, s: string, from: nat)
    requires Takes(events, n, t) && from + 1 < |s| && IsBrace(s[from]) && s[from + 1] == s[from]
    ensures Parse(events, h, s, from, |s|) == Parse(events, t.add(h, [s[from]]), s, from + 2, |s|)
  {
    if s[from] == '}' {
      ParseClosing(events, h, s, from, from, |s|);
      assert s[from..from + 1] == [s[from]];
      assert AddsText(events, t, h, s[from..from + 1]);
    } else {
      ParseFieldHere(events, h, s, from, |s|);
      assert [s[from]] == "{";
      assert AddsBrace(events, t, h, s[from..|s|]);
    }
  }

  lemma EscapeHead(s: string, from: nat, first: string, more: string, rest: string)
    requires from <= |s| && first != "" && s[from..] == (first + more) + rest
    ensures from + |first| <= |s| && s[from + |first|..] == more + rest && s[from..from + |first|] == first
    ensures s[from] == first[0] && (|first| > 1 ==> s[from + 1] == first[1])
  {
    var all := s[from..];
    assert all[..|first|] == first && all[|first|..] == more + rest;
    assert s[from..from + |first|] == all[..|first|] && s[from + |first|..] == all[|first|..];
    assert s[from] == all[0] && (|first| > 1 ==> s[from + 1] == all[1]);
  }

  // ------------------------------------------------------------ whole strings

  // The walk over the items only needs the steps of the parser, so the parser is a
  // function of state and position from here on.

  ghost predicate CharStep<H>(parse: (H, int) -> Result<H>, t: Taker<H>, s: string, h: H, from: nat)
  {
    from < |s| && !IsBrace(s[from]) ==> parse(h, from) == parse(t.add(h, [s[from]]), from + 1)
  }

  ghost predicate BraceStep<H>(parse: (H, int) -> Result<H>, t: Taker<H>, s: string, h: H, from: nat)
  {
    from + 1 < |s| && IsBrace(s[from]) && s[from + 1] == s[from] ==>
      parse(h, from) == parse(t.add(h, [s[from]]), from + 2)
  }

  ghost predicate FieldStep<H>(parse: (H, int) -> Result<H>, n: Notation, t: Taker<H>, s: string, h: H, from: nat,
                               id: ArgId, specs: Option<Syntax>, rest: string)
  {
    from <= |s| && n.legible(id, specs, rest) && s[from..] == n.show(id, specs) + rest ==>
      parse(h, from) ==
      var r := t.take(h, id, specs);
      if r.Err? then Err(r.error) else parse(r.value, from + |n.show(id, specs)|)
  }

  ghost predicate Steps<H(!new)>(parse: (H, int) -> Result<H>, n: Notation, t: Taker<H>, s: string)
  {
    && (forall h :: parse(h, |s|) == Ok(h))
    && (forall h :: t.add(h, "") == h)
    && (forall h, x, y :: Joins(t, h, x, y))
    && (forall h, from: nat :: CharStep(parse, t, s, h, from))
    && (forall h, from: nat :: BraceStep(parse, t, s, h, from))
    && (forall h, from: nat, id, specs, rest :: FieldStep(parse, n, t, s, h, from, id, specs, rest))
  }

  /** Escaped text, whatever follows it. */
  lemma {:induction false} EscapedPrefix<H(!new)>(parse: (H, int) -> Result<H>, n: Notation, t: Taker<H>, h: H,
                                                  s: string, from: nat, text: string, rest: string)
    requires Steps(parse, n, t, s) && from <= |s| && s[from..] == Escape(text) + rest
    ensures parse(h, from) == parse(t.add(h, text), from + |Escape(text)|)
    decreases |text|
  {
    if text != "" {
      var c := text[0];
      var first := if IsBrace(c) then [c, c] else [c];
      EscapeHead(s, from, first, Escape(text[1..]), rest);
      assert CharStep(parse, t, s, h, from) && BraceStep(parse, t, s, h, from);
      EscapedPrefix(parse, n, t, t.add(h, [c]), s, from + |first|, text[1..], rest);
      assert Joins(t, h, [c], text[1..]);
      assert [c] + text[1..] == text;
    }
  }

  /** A list that has been written out is handled item by item. */
  lemma {:induction false} WalkItems<H(!new)>(parse: (H, int) -> Result<H>, n: Notation, t: Taker<H>, h: H,
                                              s: string, from: nat, items: seq<Item>)
    requires Steps(parse, n, t, s) && from <= |s| && AllLegible(n, items) && s[from..] == ShowItems(n, items)
    ensures parse(h, from) == Handled(t, h, items)
    decreases |items|
  {
    if items == [] {
      assert from == |s|;
    } else {
      var next := WalkOne(parse, n, t, h, s, from, items[0], ShowItems(n, items[1..]));
      if HandledOne(t, h, items[0]).Ok? {
        WalkItems(parse, n, t, HandledOne(t, h, items[0]).value, s, next, items[1..]);
      }
    }
  }

  lemma WalkOne<H(!new)>(parse: (H, int) -> Result<H>, n: Notation, t: Taker<H>, h: H, s: string, from: nat, item: Item,
                         rest: string) returns (next: nat)
    requires Steps(parse, n, t, s) && from <= |s| && LegibleBefore(n, item, rest) && s[from..] == ShowItem(n, item) + rest
    ensures next <= |s| && s[next..] == rest
    ensures
      var r := HandledOne(t, h, item);
      parse(h, from) == if r.Err? then Err(r.error) else parse(r.value, next)
  {
    next := from + |ShowItem(n, item)|;
    assert s[next..] == s[from..][|ShowItem(n, item)|..] == rest;
    if item.Words? {
      EscapedPrefix(parse, n, t, h, s, from, item.text, rest);
    } else {
      assert FieldStep(parse, n, t, s, h, from, item.id, item.specs, rest);
    }
  }

  /** The parser, for one string. */
  ghost function ParserOf<H(!new)>(events: Events<H>, s: string): (H, int) -> Result<H>
    requires WellBehaved(events)
  {
    (h: H, from: int) => if 0 <= from <= |s| then Parse(events, h, s, from, |s|) else Err(InvalidFormat)
  }

  lemma ParserSteps<H(!new)>(events: Events<H>, n: Notation, t: Taker<H>, s: string)
    requires Takes(events, n, t)
    ensures Steps(ParserOf(events, s), n, t, s)
  {
    var parse := ParserOf(events, s);
    forall h
      ensures parse(h, |s|) == Ok(h) && t.add(h, "") == h
    {
      ParseText(events, h, s, |s|, |s|);
      assert AddsText(events, t, h, "");
    }
    forall h, from: nat
      ensures CharStep(parse, t, s, h, from) && BraceStep(parse, t, s, h, from)
    {
      if from < |s| && !IsBrace(s[from]) {
        OneChar(events, n, t, h, s, from);
      } else if from + 1 < |s| && s[from + 1] == s[from] {
        OneBrace(events, n, t, h, s, from);
      }
    }
    forall h, from: nat, id, specs, rest
      ensures FieldStep(parse, n, t, s, h, from, id, specs, rest)
    {
      FieldSteps(events, n, t, s, h, from, id, specs, rest);
    }
  }

  lemma FieldSteps<H(!new)>(events: Events<H>, n: Notation, t: Taker<H>, s: string, h: H, from: nat,
                            id: ArgId, specs: Option<Syntax>, rest: string)
    requires Takes(events, n, t)
    ensures FieldStep(ParserOf(events, s), n, t, s, h, from, id, specs, rest)
  {
    if from <= |s| && n.legible(id, specs, rest) && s[from..] == n.show(id, specs) + rest {
      assert s[from..|s|] == s[from..];
      FieldTaken(events, n, t, h, id, specs, rest, s[from..|s|]);
      FieldParsed(events, h, s, from, t.take(h, id, specs), |n.show(id, specs)|);
    }
  }

  lemma FieldTaken<H(!new)>(events: Events<H>, n: Notation, t: Taker<H>, h: H, id: ArgId, specs: Option<Syntax>,
                            rest: string, whole: string)
    requires Takes(events, n, t) && n.legible(id, specs, rest) && whole == n.show(id, specs) + rest
    ensures whole != "" && whole[0] == '{'
    ensures
      var r := t.take(h, id, specs);
      events.onField(h, whole) == if r.Err? then Err(r.error) else Ok((r.value, |n.show(id, specs)|))
  {
    assert TakesField(events, n, t, h, id, specs, rest);
  }

  lemma FieldParsed<H(!new)>(events: Events<H>, h: H, s: string, from: nat, r: Result<H>, length: nat)
    requires WellBehaved(events) && from <= |s| && s[from..|s|] != "" && s[from..|s|][0] == '{'
    requires events.onField(h, s[from..|s|]) == if r.Err? then Err(r.error) else Ok((r.value, length))
    ensures r.Ok? ==> from + length <= |s|
    ensures Parse(events, h, s, from, |s|) ==
            if r.Err? then Err(r.error) else Parse(events, r.value, s, from + length, |s|)
  {
    ParseFieldHere(events, h, s, from, |s|);
  }

  /** Parsing a list that has been written out handles its items, one after the other. */
  lemma ParseItems<H(!new)>(events: Events<H>, n: Notation, t: Taker<H>, h: H, items: seq<Item>)
    requires Takes(events, n, t) && AllLegible(n, items)
    ensures
      var s := ShowItems(n, items);
      Parse(events, h, s, 0, |s|) == Handled(t, h, items)
  {
    var s := ShowItems(n, items);
    ParserSteps(events, n, t, s);
    assert s[0..] == s;
    WalkItems(ParserOf(events, s), n, t, h, s, 0, items);
  }
}
