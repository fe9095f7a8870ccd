/**
  Splitting a format string into literal text and replacement fields.  The parser
  reports to a handler, which is a value that each report turns into a new value or
  into an error that stops the parsing.
 */
module FormatParse {
  datatype Error =
    | UnmatchedBrace | MissingBrace | InvalidFormat | UnknownSpecifier
    | NumberTooBig | MissingPrecision | InvalidFill
    | ManualToAutomatic | AutomaticToManual | ArgumentNotFound | InvalidArgument
    | NegativeCount | CountNotInteger | NotNumeric | NotSigned | PrecisionNotAllowed
    | Rendering(code: int)

  datatype Result<+T> = Ok(value: T) | Err(error: Error) {
    predicate IsFailure() { Err? }
    function PropagateFailure<U>(): Result<U>
      requires Err?
    {
      Err(error)
    }
    function Extract(): T
      requires Ok?
    {
      value
    }
  }

  /** What a handler does with text, and with a field and the rest of the string after it. */
  datatype Events<!H> = Events(onText: (H, string) -> Result<H>, onField: (H, string) -> Result<(H, nat)>)

  /** Empty text makes no difference, and a field takes up at least its opening brace. */
  ghost predicate WellBehaved<H(!new)>(events: Events<H>)
  {
    && (forall h :: events.onText(h, "") == Ok(h))
    && (forall h, s :: s != "" ==> FieldAdvances(events.onField(h, s), s))
  }

  predicate FieldAdvances<H>(field: Result<(H, nat)>, s: string)
  {
    field.Ok? ==> 1 <= field.value.1 <= |s|
  }

  // ------------------------------------------------------------ specification

  predicate IsBrace(c: char) { c == '{' || c == '}' }

  /** The index of the first brace in s[from..end], or end. */
  function NextBrace(s: string, from: nat, end: nat): (i: nat)
    requires from <= end <= |s|
    ensures from <= i <= end && (forall k :: from <= k < i ==> !IsBrace(s[k])) && (i < end ==> IsBrace(s[i]))
    decreases end - from
  {
    if from == end || IsBrace(s[from]) then from else NextBrace(s, from + 1, end)
  }

  datatype Step<H> = Stop(result: Result<H>) | More(state: H, next: nat)

  /** Text up to a brace, then a field or an escaped brace. */
  function Next<H>(events: Events<H>, h: H, s: string, from: nat, end: nat): Step<H>
    requires from <= end <= |s|
  {
    var i := NextBrace(s, from, end);
    if i == end then Stop(events.onText(h, s[from..end]))
    else if s[i] == '{' then
      match events.onText(h, s[from..i])
      case Err(e) => Stop(Err(e))
      case Ok(h1) => AtField(events, h1, s, i, end)
    else if i + 1 == end || s[i + 1] != '}' then Stop(Err(UnmatchedBrace))
    else
      match events.onText(h, s[from..i + 1])
      case Err(e) => Stop(Err(e))
      case Ok(h1) => More(h1, i + 2)
  }

  function AtField<H>(events: Events<H>, h: H, s: string, i: nat, end: nat): Step<H>
    requires i < end <= |s|
  {
    match events.onField(h, s[i..end])
    case Err(e) => Stop(Err(e))
    case Ok((h1, n)) => More(h1, i + n)
  }

  lemma NextAdvances<H(!new)>(events: Events<H>, h: H, s: string, from: nat, end: nat)
    requires WellBehaved(events) && from <= end <= |s|
    ensures
      var next := Next(events, h, s, from, end);
      next.More? ==> from < next.next <= end
  {
    var i := NextBrace(s, from, end);
    if i < end && s[i] == '{' && events.onText(h, s[from..i]).Ok? {
      var h1 := events.onText(h, s[from..i]).value;
      assert FieldAdvances(events.onField(h1, s[i..end]), s[i..end]);
    }
  }

  /** What parsing s[from..end] means. */
  ghost function Parse<H(!new)>(events: Events<H>, h: H, s: string, from: nat, end: nat): Result<H>
    requires WellBehaved(events) && from <= end <= |s|
    decreases end - from
  {
    NextAdvances(events, h, s, from, end);
    match Next(events, h, s, from, end)
    case Stop(r) => r
    case More(h1, i) => Parse(events, h1, s, i, end)
  }

  // ---------------------------------------------------------------- its steps

  lemma ParseText<H(!new)>(events: Events<H>, h: H, s: string, from: nat, end: nat)
    requires WellBehaved(events) && from <= end <= |s| && (forall k :: from <= k < end ==> !IsBrace(s[k]))
    ensures Parse(events, h, s, from, end) == events.onText(h, s[from..end])
    ensures from == end ==> Parse(events, h, s, from, end) == Ok(h)
  {
    assert NextBrace(s, from, end) == end;
    assert from == end ==> s[from..end] == "";
  }

  lemma ParseField<H(!new)>(events: Events<H>, h: H, s: string, from: nat, at: nat, end: nat)
    requires WellBehaved(events)
    requires from <= at < end <= |s| && s[at] == '{' && (forall k :: from <= k < at ==> !IsBrace(s[k]))
    ensures
      var text := events.onText(h, s[from..at]);
      var rest := Parse(events, h, s, from, end);
      if text.Err? then rest == text else
      var field := events.onField(text.value, s[at..end]);
      if field.Err? then rest == Err(field.error) else
      var (h2, n) := field.value;
      1 <= n <= end - at && rest == Parse(events, h2, s, at + n, end)
  {
    assert NextBrace(s, from, end) == at;
    var text := events.onText(h, s[from..at]);
    if text.Ok? {
      assert FieldAdvances(events.onField(text.value, s[at..end]), s[at..end]);
    }
  }

  /** A field with no text before it. */
  lemma ParseFieldHere<H(!new)>(events: Events<H>, h: H, s: string, at: nat, end: nat)
    requires WellBehaved(events) && at < end <= |s| && s[at] == '{'
    ensures
      var field := events.onField(h, s[at..end]);
      var rest := Parse(events, h, s, at, end);
      if field.Err? then rest == Err(field.error)
      else 1 <= field.value.1 <= end - at && rest == Parse(events, field.value.0, s, at + field.value.1, end)
  {
    ParseField(events, h, s, at, at, end);
    assert s[at..at] == "";
  }

  lemma ParseClosing<H(!new)>(events: Events<H>, h: H, s: string, from: nat, at: nat, end: nat)
    requires WellBehaved(events)
    requires from <= at < end <= |s| && s[at] == '}' && (forall k :: from <= k < at ==> !IsBrace(s[k]))
    ensures
      var rest := Parse(events, h, s, from, end);
      if at + 1 == end || s[at + 1] != '}' then rest == Err(UnmatchedBrace) else
      var text := events.onText(h, s[from..at + 1]);
      if text.Err? then rest == text else rest == Parse(events, text.value, s, at + 2, end)
  {
    assert NextBrace(s, from, end) == at;
  }

  // ------------------------------------------------------------ short strings

  /** Reports the field at an opening brace; the result is the position after it. */
  method FieldAt<H(!new)>(events: Events<H>, h: H, s: string, at: nat) returns (r: Result<(H, nat)>)
    requires WellBehaved(events) && at < |s| && s[at] == '{'
    ensures r.Err? ==> Parse(events, h, s, at, |s|) == Err(r.error)
    ensures r.Ok? ==> at < r.value.1 <= |s|
    ensures r.Ok? ==> Parse(events, h, s, at, |s|) == Parse(events, r.value.0, s, r.value.1, |s|)
  {
    ParseFieldHere(events, h, s, at, |s|);
    var field := events.onField(h, s[at..|s|]);
    if field.Err? {
      return Err(field.error);
    }
    return Ok((field.value.0, at + field.value.1));
  }

  /** Reports the text up to the first of two closing braces. */
  method ClosingAt<H(!new)>(events: Events<H>, h: H, s: string, from: nat, at: nat, end: nat) returns (r: Result<H>)
    requires WellBehaved(events)
    requires from <= at < end <= |s| && s[at] == '}' && forall k :: from <= k < at ==> !IsBrace(s[k])
    ensures r.Err? ==> Parse(events, h, s, from, end) == r
    ensures r.Ok? ==> at + 2 <= end && Parse(events, h, s, from, end) == Parse(events, r.value, s, at + 2, end)
  {
    ParseClosing(events, h, s, from, at, end);
    if at + 1 == end || s[at + 1] != '}' {
      return Err(UnmatchedBrace);
    }
    r := events.onText(h, s[from..at + 1]);
  }

  /** One pass, character by character. */
  method ParseShort<H(!new)>(events: Events<H>, start: H, s: string) returns (r: Result<H>)
    requires WellBehaved(events)
    ensures r == Parse(events, start, s, 0, |s|)
  {
    ghost var meaning := Parse(events, start, s, 0, |s|);
    var h, begin, p := start, 0, 0;
    while p != |s|
      invariant 0 <= begin <= p <= |s|
      invariant forall k :: begin <= k < p ==> !IsBrace(s[k])
      invariant meaning == Parse(events, h, s, begin, |s|)
      decreases |s| - p
    {
      var c := s[p];
      p := p + 1;
      if c == '{' {
        FieldAfterText(events, h, s, begin, p - 1, |s|);
        var text := events.onText(h, s[begin..p - 1]);
        if text.Err? {
          return text;
        }
        var field := FieldAt(events, text.value, s, p - 1);
        if field.Err? {
          return Err(field.error);
        }
        h, p := field.value.0, field.value.1;
        begin := p;
      } else if c == '}' {
        var text := ClosingAt(events, h, s, begin, p - 1, |s|);
        if text.Err? {
          return text;
        }
        h, p := text.value, p + 1;
        begin := p;
      }
    }
    ParseText(events, h, s, begin, |s|);
    r := events.onText(h, s[begin..|s|]);
  }

  // ------------------------------------------------------------- long strings

  /** The first position of c in s[from..end], or end. */
  method Find(s: string, from: nat, end: nat, c: char) returns (at: nat)
    requires from <= end <= |s|
    ensures from <= at <= end && (forall k :: from <= k < at ==> s[k] != c) && (at < end ==> s[at] == c)
  {
    at := from;
    while at != end
      invariant from <= at <= end
      invariant forall k :: from <= k < at ==> s[k] != c
      decreases end - at
    {
      if s[at] == c {
        return;
      }
      at := at + 1;
    }
  }

  /** Writes text without opening braces, halving the closing ones. */
  method WriteText<H(!new)>(events: Events<H>, start: H, s: string, from: nat, end: nat) returns (r: Result<H>)
    requires WellBehaved(events) && from <= end <= |s| && forall k :: from <= k < end ==> s[k] != '{'
    ensures r == Parse(events, start, s, from, end)
  {
    if from == end {
      ParseText(events, start, s, from, end);
      return Ok(start);
    }
    ghost var meaning := Parse(events, start, s, from, end);
    var h, begin := start, from;
    while true
      invariant from <= begin <= end
      invariant meaning == Parse(events, h, s, begin, end)
      decreases end - begin
    {
      var p := Find(s, begin, end, '}');
      if p == end {
        ParseText(events, h, s, begin, end);
        return events.onText(h, s[begin..end]);
      }
      var text := ClosingAt(events, h, s, begin, p, end);
      if text.Err? {
        return text;
      }
      h, begin := text.value, p + 2;
    }
  }

  /** Text without opening braces can be parsed on its own, then the field after it. */
  lemma {:induction false} ParseInTwo<H(!new)>(events: Events<H>, h: H, s: string, from: nat, at: nat, end: nat)
    requires WellBehaved(events) && from <= at <= end <= |s| && (forall k :: from <= k < at ==> s[k] != '{')
    requires at < end ==> s[at] == '{'
    ensures
      var first := Parse(events, h, s, from, at);
      Parse(events, h, s, from, end) == if first.Ok? then Parse(events, first.value, s, at, end) else first
    decreases at - from
  {
    if NextBrace(s, from, at) < at {
      NextBefore(events, h, s, from, at, end);
      NextAdvances(events, h, s, from, at);
      var next := Next(events, h, s, from, at);
      if next.More? {
        ParseInTwo(events, next.state, s, next.next, at, end);
      }
    } else {
      ParseText(events, h, s, from, at);
      if at < end {
        FieldAfterText(events, h, s, from, at, end);
      } else if events.onText(h, s[from..at]).Ok? {
        ParseText(events, events.onText(h, s[from..at]).value, s, at, at);
      }
    }
  }

  /** A closing brace is handled the same way whether or not a field follows the text. */
  lemma NextBefore<H>(events: Events<H>, h: H, s: string, from: nat, at: nat, end: nat)
    requires from <= at <= end <= |s| && (forall k :: from <= k < at ==> s[k] != '{')
    requires (at < end ==> s[at] == '{') && NextBrace(s, from, at) < at
    ensures Next(events, h, s, from, at) == Next(events, h, s, from, end)
  {
    assert NextBrace(s, from, end) == NextBrace(s, from, at);
  }

  lemma FieldAfterText<H(!new)>(events: Events<H>, h: H, s: string, from: nat, at: nat, end: nat)
    requires WellBehaved(events)
    requires from <= at < end <= |s| && s[at] == '{' && (forall k :: from <= k < at ==> !IsBrace(s[k]))
    ensures
      var first := events.onText(h, s[from..at]);
      Parse(events, h, s, from, end) == if first.Ok? then Parse(events, first.value, s, at, end) else first
  {
    ParseField(events, h, s, from, at, end);
    var first := events.onText(h, s[from..at]);
    if first.Ok? {
      assert s[at..at] == "";
      ParseField(events, first.value, s, at, at, end);
    }
  }

  /** Two searches: for an opening brace, then for closing ones before it. */
  method ParseLong<H(!new)>(events: Events<H>, start: H, s: string) returns (r: Result<H>)
    requires WellBehaved(events)
    ensures r == Parse(events, start, s, 0, |s|)
  {
    ghost var meaning := Parse(events, start, s, 0, |s|);
    var h, begin := start, 0;
    while begin != |s|
      invariant 0 <= begin <= |s| && meaning == Parse(events, h, s, begin, |s|)
      decreases |s| - begin
    {
      var p := begin;
      if s[begin] != '{' {
        p := Find(s, begin + 1, |s|, '{');
        if p == |s| {
          r := WriteText(events, h, s, begin, |s|);
          return;
        }
      }
      ParseInTwo(events, h, s, begin, p, |s|);
      var text := WriteText(events, h, s, begin, p);
      if text.Err? {
        return text;
      }
      var field := FieldAt(events, text.value, s, p);
      if field.Err? {
        return Err(field.error);
      }
      h, begin := field.value.0, field.value.1;
    }
    ParseText(events, h, s, begin, |s|);
    r := Ok(h);
  }

  /** The length decides which way the string is parsed, and nothing else. */
  method ParseFormatString<H(!new)>(events: Events<H>, start: H, s: string) returns (r: Result<H>)
    requires WellBehaved(events)
    ensures r == Parse(events, start, s, 0, |s|)
  {
    if |s| < 32 {
      r := ParseShort(events, start, s);
    } else {
      r := ParseLong(events, start, s);
    }
  }

  // --------------------------------------------------- two handlers in step

  /** The relation between two handlers, and the states of the second from which it is never restored. */
  datatype Link<!A, !B> = Link(agree: (A, B) -> bool, lost: B -> bool)

  /** Text is taken by both and keeps them in agreement. */
  ghost predicate TextsInStep<A(!new), B(!new)>(ea: Events<A>, eb: Events<B>, link: Link<A, B>)
  {
    forall a, b, text :: link.agree(a, b) ==> TextInStep(ea.onText(a, text), eb.onText(b, text), link)
  }

  ghost predicate TextInStep<A, B>(ra: Result<A>, rb: Result<B>, link: Link<A, B>)
  {
    ra.Ok? && rb.Ok? && link.agree(ra.value, rb.value)
  }

  /** A field taken by the first is taken by the second; otherwise the second fails or is lost. */
  ghost predicate FieldsInStep<A(!new), B(!new)>(ea: Events<A>, eb: Events<B>, link: Link<A, B>)
  {
    forall a, b, s :: link.agree(a, b) && s != "" ==> FieldInStep(ea.onField(a, s), eb.onField(b, s), link)
  }

  ghost predicate FieldInStep<A, B>(ra: Result<(A, nat)>, rb: Result<(B, nat)>, link: Link<A, B>)
  {
    && (ra.Ok? ==> rb.Ok? && ra.value.1 == rb.value.1 && link.agree(ra.value.0, rb.value.0))
    && (ra.Err? && rb.Ok? ==> link.lost(rb.value.0))
  }

  /** Nothing brings a lost state back. */
  ghost predicate StaysLost<A(!new), B(!new)>(eb: Events<B>, link: Link<A, B>)
  {
    && (forall b, text :: link.lost(b) ==> LostText(eb.onText(b, text), link))
    && (forall b, s :: link.lost(b) && s != "" ==> LostField(eb.onField(b, s), link))
  }

  ghost predicate LostText<A, B>(rb: Result<B>, link: Link<A, B>) { rb.Ok? ==> link.lost(rb.value) }

  ghost predicate LostField<A, B>(rb: Result<(B, nat)>, link: Link<A, B>) { rb.Ok? ==> link.lost(rb.value.0) }

  lemma NextLost<A(!new), B(!new)>(eb: Events<B>, link: Link<A, B>, b: B, s: string, from: nat, end: nat)
    requires StaysLost(eb, link) && link.lost(b) && from <= end <= |s|
    ensures
      var next := Next(eb, b, s, from, end);
      if next.More? then link.lost(next.state) else LostText(next.result, link)
  {
    var i := NextBrace(s, from, end);
    var stop := if i < end && s[i] == '}' then i + 1 else i;
    assert LostText(eb.onText(b, s[from..stop]), link);
    if i < end && s[i] == '{' && eb.onText(b, s[from..i]).Ok? {
      assert LostField(eb.onField(eb.onText(b, s[from..i]).value, s[i..end]), link);
    }
  }

  lemma {:induction false} ParseLost<A(!new), B(!new)>(eb: Events<B>, link: Link<A, B>, b: B, s: string, from: nat, end: nat)
    requires WellBehaved(eb) && StaysLost(eb, link) && link.lost(b) && from <= end <= |s|
    ensures LostText(Parse(eb, b, s, from, end), link)
    decreases end - from
  {
    NextAdvances(eb, b, s, from, end);
    NextLost(eb, link, b, s, from, end);
    var next := Next(eb, b, s, from, end);
    if next.More? {
      ParseLost(eb, link, next.state, s, next.next, end);
    }
  }

  /** One step of two handlers that agree. */
  ghost predicate InStep<A, B>(na: Step<A>, nb: Step<B>, link: Link<A, B>)
  {
    && (na.More? ==> nb.More? && na.next == nb.next && link.agree(na.state, nb.state))
    && (na.Stop? && na.result.Ok? ==> nb.Stop? && TextInStep(na.result, nb.result, link))
    && (na.Stop? && na.result.Err? ==> if nb.More? then link.lost(nb.state) else LostText(nb.result, link))
  }

  lemma NextInStep<A(!new), B(!new)>(ea: Events<A>, eb: Events<B>, link: Link<A, B>, a: A, b: B,
                                     s: string, from: nat, end: nat)
    requires from <= end <= |s| && link.agree(a, b)
    requires TextsInStep(ea, eb, link) && FieldsInStep(ea, eb, link)
    ensures InStep(Next(ea, a, s, from, end), Next(eb, b, s, from, end), link)
  {
    var i := NextBrace(s, from, end);
    var stop := if i < end && s[i] == '}' then i + 1 else i;
    assert TextInStep(ea.onText(a, s[from..stop]), eb.onText(b, s[from..stop]), link);
    if i < end && s[i] == '{' {
      var a1, b1 := ea.onText(a, s[from..i]).value, eb.onText(b, s[from..i]).value;
      assert FieldInStep(ea.onField(a1, s[i..end]), eb.onField(b1, s[i..end]), link);
    }
  }

  /** Handlers that agree at the start agree at the end, or the second fails or is lost. */
  lemma {:induction false} ParseInStep<A(!new), B(!new)>(ea: Events<A>, eb: Events<B>, link: Link<A, B>, a: A, b: B,
                                                         s: string, from: nat, end: nat)
    requires WellBehaved(ea) && WellBehaved(eb) && from <= end <= |s| && link.agree(a, b)
    requires TextsInStep(ea, eb, link) && FieldsInStep(ea, eb, link) && StaysLost(eb, link)
    ensures
      var ra, rb := Parse(ea, a, s, from, end), Parse(eb, b, s, from, end);
      && (ra.Ok? ==> TextInStep(ra, rb, link))
      && (ra.Err? ==> LostText(rb, link))
    decreases end - from
  {
    NextInStep(ea, eb, link, a, b, s, from, end);
    NextAdvances(ea, a, s, from, end);
    NextAdvances(eb, b, s, from, end);
    var na, nb := Next(ea, a, s, from, end), Next(eb, b, s, from, end);
    if na.More? {
      ParseInStep(ea, eb, link, na.state, nb.state, s, na.next, end);
    } else if nb.More? {
      ParseLost(eb, link, nb.state, s, nb.next, end);
    }
  }
}
