/**
  Formatting directly from a format string, and compiling the string to parts that
  are formatted later.  Both produce the same output.  Rendering one argument with
  given specifiers is a parameter.
 */
module FormatCompile {
  import opened Words
  import opened FormatParse
  import opened FormatSpecs

  // ---------------------------------------------------------------- arguments

  datatype ArgType =
    | IntType | UIntType | LongLongType | ULongLongType | Int128Type | UInt128Type | BoolType | CharType
    | FloatType | DoubleType | LongDoubleType | CStringType | StringType | PointerType

  predicate IsIntegral(t: ArgType)
  {
    t in {IntType, UIntType, LongLongType, ULongLongType, Int128Type, UInt128Type, BoolType, CharType}
  }

  predicate IsArithmetic(t: ArgType)
  {
    IsIntegral(t) || t in {FloatType, DoubleType, LongDoubleType}
  }

  /** An argument: its type, its value if that is an integer, and what identifies it to the renderer. */
  datatype Arg = Arg(kind: ArgType, integer: int, payload: int)

  /** Arguments by position, and the positions that have names; the first of equal names counts. */
  datatype Args = Args(values: seq<Arg>, names: seq<(string, nat)>)

  function ArgAt(args: Args, id: int): Option<Arg>
  {
    if 0 <= id < |args.values| then Some(args.values[id]) else None
  }

  function IdOf(names: seq<(string, nat)>, name: string): Option<nat>
  {
    if names == [] then None else if names[0].0 == name then Some(names[0].1) else IdOf(names[1..], name)
  }

  function ArgNamed(args: Args, name: string): Option<Arg>
  {
    match IdOf(args.names, name)
    case None => None
    case Some(id) => ArgAt(args, id)
  }

  /** The value of a dynamic width or precision, read as a 64-bit number. */
  function DynamicCount(arg: Option<Arg>): (r: Result<nat>)
    ensures r.Ok? ==> r.value <= INT_MAX
  {
    if arg.None? || !IsIntegral(arg.value.kind) || arg.value.kind in {BoolType, CharType} then Err(CountNotInteger)
    else if arg.value.integer < 0 then Err(NegativeCount)
    else
      var value := arg.value.integer % TWO64;
      if value > INT_MAX then Err(NumberTooBig) else Ok(value)
  }

  // ------------------------------------------------------------ argument ids

  /** Automatic numbering: the next id, or -1 once an id has been given by hand. */
  function NextArgId(next: int): Result<(int, int)>
  {
    if next >= 0 then Ok((next, next + 1)) else Err(ManualToAutomatic)
  }

  function CheckArgId(next: int): Result<int>
  {
    if next > 0 then Err(AutomaticToManual) else Ok(-1)
  }

  /** The ids that were given out or written, none for names, and the numbering after them. */
  datatype Numbering = Numbering(given: seq<Option<int>>, next: int)

  /** The numbering of a sequence of ids, from the start. */
  function Numbered(ids: seq<ArgId>): Result<Numbering>
  {
    if ids == [] then Ok(Numbering([], 0))
    else
      var before :- Numbered(ids[..|ids| - 1]);
      match ids[|ids| - 1]
      case Automatic =>
        var (i, n) :- NextArgId(before.next);
        Ok(Numbering(before.given + [Some(i)], n))
      case Index(i) =>
        var n :- CheckArgId(before.next);
        Ok(Numbering(before.given + [Some(i)], n))
      case Name(_) => Ok(before.(given := before.given + [None]))
  }

  function NumAutomatic(ids: seq<ArgId>): nat
  {
    if ids == [] then 0 else NumAutomatic(ids[..|ids| - 1]) + if ids[|ids| - 1].Automatic? then 1 else 0
  }

  predicate AnyIndex(ids: seq<ArgId>) { exists i :: 0 <= i < |ids| && ids[i].Index? }

  /** What an id stands for after the ids before it. */
  function Given(before: seq<ArgId>, id: ArgId): Option<int>
  {
    match id
    case Automatic => Some(NumAutomatic(before))
    case Index(i) => Some(i)
    case Name(_) => None
  }

  /**
    Over any sequence of ids: automatic and manual numbering exclude each other, names
    go with both, and the automatic id given out is the number of automatic ones before
    it.
   */
  lemma {:induction false} NumberingExcludes(ids: seq<ArgId>)
    ensures Numbered(ids).Ok? <==> !(NumAutomatic(ids) > 0 && AnyIndex(ids))
    ensures Numbered(ids).Ok? ==>
      var numbering := Numbered(ids).value;
      && numbering.next == (if AnyIndex(ids) then -1 else NumAutomatic(ids)) && |numbering.given| == |ids|
      && forall k :: 0 <= k < |ids| ==> numbering.given[k] == Given(ids[..k], ids[k])
  {
    if ids != [] {
      var front, last := ids[..|ids| - 1], ids[|ids| - 1];
      NumberingExcludes(front);
      AnyIndexLast(ids, front, last);
      assert forall k :: 0 <= k < |front| ==> front[..k] == ids[..k];
    }
  }

  lemma AnyIndexLast(ids: seq<ArgId>, front: seq<ArgId>, last: ArgId)
    requires ids == front + [last]
    ensures AnyIndex(ids) <==> AnyIndex(front) || last.Index?
  {
    if AnyIndex(front) {
      var i :| 0 <= i < |front| && front[i].Index?;
      assert ids[i].Index?;
    }
    if AnyIndex(ids) && !last.Index? {
      var i :| 0 <= i < |ids| && ids[i].Index?;
      assert front[i].Index?;
    }
    if last.Index? {
      assert ids[|front|].Index?;
    }
  }

  // ------------------------------------------------------------------- checks

  datatype Specs = Specs(width: int, precision: int, kind: Option<char>, align: Align, sign: Sign, alt: bool,
                         fill: string)

  const DEFAULT_SPECS := Specs(0, -1, None, NoAlign, NoSign, false, " ")

  function RequireNumeric(t: ArgType): Result<()>
  {
    if IsArithmetic(t) then Ok(()) else Err(NotNumeric)
  }

  function CheckSign(t: ArgType): Result<()>
  {
    var _ :- RequireNumeric(t);
    if IsIntegral(t) && t !in {IntType, LongLongType, CharType} then Err(NotSigned) else Ok(())
  }

  function CheckPrecision(t: ArgType): Result<()>
  {
    if IsIntegral(t) || t == PointerType then Err(PrecisionNotAllowed) else Ok(())
  }

  /** The specifiers that need no argument; the zero flag overrides the first fill unit and the alignment. */
  function PlainSpecs(y: Syntax): Specs
  {
    var fill := if y.fill.Some? then y.fill.value else " ";
    DEFAULT_SPECS.(
      fill := if y.zero && fill != [] then ['0'] + fill[1..] else fill,
      align := if y.zero then Numeric else y.align,
      sign := y.sign, alt := y.alt, kind := y.kind,
      width := if y.width.Literal? then y.width.count else 0,
      precision := if y.precision.Literal? then y.precision.count else -1)
  }

  // -------------------------------------------------------------- directly

  /** Rendering, with no specifiers or with resolved ones. */
  type Renderer = (Arg, Option<Specs>) -> Result<string>

  /** The output so far and the automatic numbering. */
  datatype Direct = Direct(out: string, next: int)

  /** The argument that a dynamic count names, and the numbering after it. */
  function DirectArg(args: Args, id: ArgId, next: int): Result<(Arg, int)>
  {
    var (arg, next1) :-
      match id {
        case Automatic =>
          var (i, n) :- NextArgId(next);
          Ok((ArgAt(args, i), n))
        case Index(i) =>
          var n :- CheckArgId(next);
          Ok((ArgAt(args, i), n))
        case Name(name) => Ok((ArgNamed(args, name), next))
      };
    if arg.None? then Err(ArgumentNotFound) else Ok((arg.value, next1))
  }

  function DirectCount(args: Args, count: Count, given: int, next: int): Result<(int, int)>
  {
    if count.Dynamic? then
      var (arg, next1) :- DirectArg(args, count.arg, next);
      var value :- DynamicCount(Some(arg));
      Ok((value, next1))
    else Ok((given, next))
  }

  /** Applies specifiers for an argument of type t, checking and resolving each as it is reported. */
  function DirectSpecs(args: Args, t: ArgType, y: Syntax, next: int): Result<(Specs, int)>
  {
    var _ :- if y.sign != NoSign then CheckSign(t) else Ok(());
    var _ :- if y.alt then RequireNumeric(t) else Ok(());
    var _ :- if y.zero then RequireNumeric(t) else Ok(());
    var plain := PlainSpecs(y);
    var (width, next1) :- DirectCount(args, y.width, plain.width, next);
    var (precision, next2) :- DirectCount(args, y.precision, plain.precision, next1);
    var _ :- if y.precision.Absent? || y.error.Some? then Ok(()) else CheckPrecision(t);
    if y.error.Some? then Err(y.error.value)
    else Ok((plain.(width := width, precision := precision), next2))
  }

  function DirectArgId(args: Args, h: Direct, id: ArgId): Result<(Direct, int)>
  {
    match id
    case Automatic =>
      var (i, n) :- NextArgId(h.next);
      Ok((h.(next := n), i))
    case Index(i) =>
      var n :- CheckArgId(h.next);
      Ok((h.(next := n), i))
    case Name(name) =>
      var i := IdOf(args.names, name);
      if i.None? then Err(ArgumentNotFound) else Ok((h, i.value))
  }

  function DirectRender(render: Renderer, h: Direct, arg: Arg, specs: Option<Specs>): Result<Direct>
  {
    var text :- render(arg, specs);
    Ok(h.(out := h.out + text))
  }

  function DirectReplacement(args: Args, render: Renderer, h: Direct, id: int): Result<Direct>
  {
    var arg := ArgAt(args, id);
    if arg.None? then Err(ArgumentNotFound) else DirectRender(render, h, arg.value, None)
  }

  /** A field whose specifiers have been parsed. */
  function DirectField(args: Args, render: Renderer, h: Direct, arg: Arg, y: Syntax, closed: bool): Result<Direct>
  {
    var (specs, next) :- DirectSpecs(args, arg.kind, y, h.next);
    if !closed then Err(MissingBrace) else DirectRender(render, h.(next := next), arg, Some(specs))
  }

  predicate ClosedAt(s: string, n: nat) { n < |s| && s[n] == '}' }

  /** A lone letter is taken as the type without parsing. */
  function DirectOnSpecs(args: Args, render: Renderer, h: Direct, id: int, s: string): Result<(Direct, nat)>
  {
    var arg := ArgAt(args, id);
    if arg.None? then Err(ArgumentNotFound)
    else if |s| > 1 && s[1] == '}' && IsAsciiLetter(s[0]) then
      var h1 :- DirectRender(render, h, arg.value, Some(DEFAULT_SPECS.(kind := Some(s[0]))));
      Ok((h1, 1))
    else
      var y := ParseSpecs(s);
      var h1 :- DirectField(args, render, h, arg.value, y, ClosedAt(s, y.n));
      Ok((h1, y.n))
  }

  function DirectHandler(args: Args, render: Renderer): Handler<Direct>
  {
    Handler((h: Direct, s: string) => Ok(h.(out := h.out + s)),
            (h: Direct, id: ArgId) => DirectArgId(args, h, id),
            (h: Direct, id: int) => DirectReplacement(args, render, h, id),
            (h: Direct, id: int, s: string) => DirectOnSpecs(args, render, h, id, s))
  }

  // --------------------------------------------------------------- compiling

  /** A reference to an argument, kept for later. */
  datatype Ref = NoRef | ToIndex(index: int) | ToName(name: string)

  datatype Part =
    | Text(text: string)
    | Plain(ref: Ref)
    | Replacement(ref: Ref, specs: Specs, widthRef: Ref, precisionRef: Ref)

  /** The parts so far, the argument of the field being compiled, and the automatic numbering. */
  datatype Compiler = Compiler(parts: seq<Part>, pending: Ref, next: int)

  function MakeRef(id: ArgId, next: int): Result<(Ref, int)>
  {
    match id
    case Automatic =>
      var (i, n) :- NextArgId(next);
      Ok((ToIndex(i), n))
    case Index(i) =>
      var n :- CheckArgId(next);
      Ok((ToIndex(i), n))
    case Name(name) => Ok((ToName(name), next))
  }

  function CountRef(count: Count, next: int): Result<(Ref, int)>
  {
    if count.Dynamic? then MakeRef(count.arg, next) else Ok((NoRef, next))
  }

  function CompileText(h: Compiler, s: string): Result<Compiler>
  {
    if s == [] then Ok(h) else Ok(h.(parts := h.parts + [Text(s)]))
  }

  function CompileArgId(h: Compiler, id: ArgId): Result<(Compiler, int)>
  {
    var (ref, next) :- MakeRef(id, h.next);
    Ok((h.(pending := ref, next := next), 0))
  }

  function CompileField(h: Compiler, y: Syntax): Result<Compiler>
  {
    var (widthRef, next1) :- CountRef(y.width, h.next);
    var (precisionRef, next2) :- CountRef(y.precision, next1);
    if y.error.Some? then Err(y.error.value)
    else Ok(h.(parts := h.parts + [Replacement(h.pending, PlainSpecs(y), widthRef, precisionRef)], next := next2))
  }

  /** The character after the specifiers is looked at even past the end; the caller notices that. */
  function CompileOnSpecs(h: Compiler, s: string): Result<(Compiler, nat)>
  {
    var y := ParseSpecs(s);
    var h1 :- CompileField(h, y);
    if y.n < |s| && s[y.n] != '}' then Err(MissingBrace) else Ok((h1, y.n))
  }

  function CompileHandler(): Handler<Compiler>
  {
    Handler((h: Compiler, s: string) => CompileText(h, s),
            (h: Compiler, id: ArgId) => CompileArgId(h, id),
            (h: Compiler, id: int) => Ok(h.(parts := h.parts + [Plain(h.pending)])),
            (h: Compiler, id: int, s: string) => CompileOnSpecs(h, s))
  }

  // ------------------------------------------------------------ running parts

  function Deref(args: Args, ref: Ref): Option<Arg>
  {
    match ref
    case NoRef => None
    case ToIndex(i) => ArgAt(args, i)
    case ToName(name) => ArgNamed(args, name)
  }

  function ResolveCount(args: Args, ref: Ref, given: int): Result<int>
  {
    if ref.NoRef? then Ok(given) else
    var value :- DynamicCount(Deref(args, ref));
    Ok(value)
  }

  /** The checks that were left out when compiling. */
  function CheckSpecs(t: ArgType, specs: Specs): Result<()>
  {
    var _ :- if specs.align == Numeric then RequireNumeric(t) else Ok(());
    var _ :- if specs.sign != NoSign then CheckSign(t) else Ok(());
    var _ :- if specs.alt then RequireNumeric(t) else Ok(());
    if specs.precision >= 0 then CheckPrecision(t) else Ok(())
  }

  function RunPart(args: Args, render: Renderer, part: Part): Result<string>
  {
    match part
    case Text(text) => Ok(text)
    case Plain(ref) =>
      var arg := Deref(args, ref);
      if arg.None? then Err(InvalidArgument) else render(arg.value, None)
    case Replacement(ref, plain, widthRef, precisionRef) =>
      var arg := Deref(args, ref);
      var width :- ResolveCount(args, widthRef, plain.width);
      var precision :- ResolveCount(args, precisionRef, plain.precision);
      var specs := plain.(width := width, precision := precision);
      if arg.None? then Err(InvalidArgument)
      else
        var _ :- CheckSpecs(arg.value.kind, specs);
        render(arg.value, Some(specs))
  }

  /** The output of a sequence of parts. */
  function Run(args: Args, render: Renderer, parts: seq<Part>): Result<string>
  {
    if parts == [] then Ok("")
    else
      var out :- Run(args, render, parts[..|parts| - 1]);
      var text :- RunPart(args, render, parts[|parts| - 1]);
      Ok(out + text)
  }

  /** Runs the parts one after the other. */
  method VformatTo(args: Args, render: Renderer, parts: seq<Part>) returns (r: Result<string>)
    ensures r == Run(args, render, parts)
  {
    var out := "";
    var i := 0;
    while i != |parts|
      invariant 0 <= i <= |parts| && Run(args, render, parts[..i]) == Ok(out)
      decreases |parts| - i
    {
      assert parts[..i + 1] == parts[..i] + [parts[i]];
      RunSnoc(args, render, parts[..i], parts[i]);
      var text := RunPart(args, render, parts[i]);
      if text.Err? {
        RunPrefix(args, render, parts, i + 1);
        return text;
      }
      out, i := out + text.value, i + 1;
    }
    assert parts[..i] == parts;
    r := Ok(out);
  }

  lemma RunSnoc(args: Args, render: Renderer, parts: seq<Part>, part: Part)
    ensures
      var before, text := Run(args, render, parts), RunPart(args, render, part);
      Run(args, render, parts + [part]) ==
      if before.Err? then before else if text.Err? then text else Ok(before.value + text.value)
  {
    var all := parts + [part];
    assert all[..|all| - 1] == parts && all[|all| - 1] == part;
  }

  /** An error in the first parts is the error of all of them. */
  lemma {:induction false} RunPrefix(args: Args, render: Renderer, parts: seq<Part>, n: nat)
    requires n <= |parts|
    ensures Run(args, render, parts[..n]).Err? ==> Run(args, render, parts) == Run(args, render, parts[..n])
  {
    if n == |parts| {
      assert parts[..n] == parts;
    } else {
      var front := parts[..|parts| - 1];
      assert front[..n] == parts[..n];
      RunPrefix(args, render, front, n);
    }
  }

  // ---------------------------------------------------------- the two agree

  /** A compiler has written parts for what the direct formatter has put out. */
  ghost predicate Agree(args: Args, render: Renderer, d: Direct, c: Compiler)
  {
    d.next == c.next && Run(args, render, c.parts) == Ok(d.out)
  }

  /** Resolving a count now or later gives the same number. */
  lemma CountsAgree(args: Args, count: Count, given: int, next: int)
    ensures
      var direct, ref := DirectCount(args, count, given, next), CountRef(count, next);
      && (direct.Ok? <==> ref.Ok? && ResolveCount(args, ref.value.0, given).Ok?)
      && (direct.Ok? ==> ResolveCount(args, ref.value.0, given).value == direct.value.0
                         && ref.value.1 == direct.value.1)
  {
  }

  /** Checking and resolving specifiers as they are parsed is doing it afterwards. */
  lemma SpecsAgree(args: Args, t: ArgType, y: Syntax, next: int)
    requires y.align != Numeric
    ensures
      var direct := DirectSpecs(args, t, y, next);
      var width, plain := CountRef(y.width, next), PlainSpecs(y);
      if width.Err? then direct.Err? else
      var precision := CountRef(y.precision, width.value.1);
      if precision.Err? then direct.Err? else
      var w := ResolveCount(args, width.value.0, plain.width);
      var p := ResolveCount(args, precision.value.0, plain.precision);
      if y.error.Some? || w.Err? || p.Err? then direct.Err? else
      var specs := plain.(width := w.value, precision := p.value);
      && (direct.Ok? <==> CheckSpecs(t, specs).Ok?)
      && (direct.Ok? ==> direct.value == (specs, precision.value.1))
  {
    var plain := PlainSpecs(y);
    CountsAgree(args, y.width, plain.width, next);
    var width := CountRef(y.width, next);
    if width.Ok? {
      CountsAgree(args, y.precision, plain.precision, width.value.1);
    }
  }

  /** The argument of a field, looked up now or kept as a reference. */
  lemma ArgIdsAgree(args: Args, d: Direct, c: Compiler, id: ArgId)
    requires d.next == c.next
    ensures
      var direct, compiled := DirectArgId(args, d, id), CompileArgId(c, id);
      && (direct.Ok? ==>
            && compiled.Ok? && direct.value.0 == d.(next := compiled.value.0.next)
            && Deref(args, compiled.value.0.pending) == ArgAt(args, direct.value.1))
      && (compiled.Ok? ==>
            && compiled.value.0.parts == c.parts && !compiled.value.0.pending.NoRef?
            && (direct.Err? ==> Deref(args, compiled.value.0.pending).None?))
  {
  }

  /** A step of the direct formatter, and the same step of the compiler. */
  ghost predicate StepsAgree(args: Args, render: Renderer, c: Compiler,
                             direct: Result<(Direct, nat)>, compiled: Result<(Compiler, nat)>)
  {
    && (direct.Ok? ==>
          compiled.Ok? && compiled.value.1 == direct.value.1 && Agree(args, render, direct.value.0, compiled.value.0))
    && (compiled.Ok? ==> c.parts <= compiled.value.0.parts)
    && (compiled.Ok? && Run(args, render, compiled.value.0.parts).Ok? ==> direct.Ok?)
  }

  /** A field without specifiers. */
  lemma ReplacementsAgree(args: Args, render: Renderer, d: Direct, c: Compiler, id: int, n: nat)
    requires Agree(args, render, d, c) && Deref(args, c.pending) == ArgAt(args, id)
    ensures
      var direct := DirectReplacement(args, render, d, id);
      StepsAgree(args, render, c, if direct.Ok? then Ok((direct.value, n)) else Err(direct.error),
                 Ok((c.(parts := c.parts + [Plain(c.pending)]), n)))
  {
    RunSnoc(args, render, c.parts, Plain(c.pending));
  }

  /** A field with specifiers that have been parsed. */
  lemma FieldsAgree(args: Args, render: Renderer, d: Direct, c: Compiler, arg: Option<Arg>, y: Syntax)
    requires Agree(args, render, d, c) && Deref(args, c.pending) == arg && y.align != Numeric
    ensures
      var compiled := CompileField(c, y);
      var direct := if arg.None? then Err(ArgumentNotFound) else DirectField(args, render, d, arg.value, y, true);
      && (direct.Ok? ==> compiled.Ok? && Agree(args, render, direct.value, compiled.value))
      && (compiled.Ok? ==> c.parts <= compiled.value.parts)
      && (compiled.Ok? && Run(args, render, compiled.value.parts).Ok? ==> direct.Ok?)
  {
    if arg.Some? {
      SpecsAgree(args, arg.value.kind, y, d.next);
    }
    var width := CountRef(y.width, c.next);
    if width.Ok? {
      var precision := CountRef(y.precision, width.value.1);
      if precision.Ok? {
        RunSnoc(args, render, c.parts, Replacement(c.pending, PlainSpecs(y), width.value.0, precision.value.0));
      }
    }
  }

  /** The direct formatter's shortcut for a lone letter changes nothing. */
  lemma ShortcutIsField(args: Args, render: Renderer, d: Direct, id: int, s: string)
    requires ArgAt(args, id).Some?
    ensures
      var arg, y := ArgAt(args, id).value, ParseSpecs(s);
      var direct := DirectField(args, render, d, arg, y, ClosedAt(s, y.n));
      DirectOnSpecs(args, render, d, id, s) == if direct.Ok? then Ok((direct.value, y.n)) else Err(direct.error)
  {
    if |s| > 1 && s[1] == '}' && IsAsciiLetter(s[0]) {
      LetterIsKind(s);
    }
  }

  /** A field with specifiers, when they end at a closing brace. */
  lemma OnSpecsAgree(args: Args, render: Renderer, d: Direct, c: Compiler, id: int, s: string)
    requires Agree(args, render, d, c) && Deref(args, c.pending) == ArgAt(args, id)
    ensures
      var direct, compiled, n := DirectOnSpecs(args, render, d, id, s), CompileOnSpecs(c, s), ParseSpecs(s).n;
      && (ClosedAt(s, n) ==> StepsAgree(args, render, c, direct, compiled))
      && (direct.Ok? ==> ClosedAt(s, n) && direct.value.1 == n) && (compiled.Ok? ==> compiled.value.1 == n)
  {
    var arg, y := ArgAt(args, id), ParseSpecs(s);
    if arg.Some? {
      ShortcutIsField(args, render, d, id, s);
    }
    FieldsAgree(args, render, d, c, arg, y);
  }

  // ------------------------------------------------------------ whole fields

  lemma DirectWellBehaved(args: Args, render: Renderer)
    ensures WellBehaved(AsEvents(DirectHandler(args, render)))
  {
    var events := AsEvents(DirectHandler(args, render));
    forall h
      ensures events.onText(h, "") == Ok(h)
    {
      assert h.out + "" == h.out;
    }
  }

  lemma CompileWellBehaved()
    ensures WellBehaved(AsEvents(CompileHandler()))
  {
  }

  /** After the argument id of a field. */
  lemma AfterArgIdAgrees(args: Args, render: Renderer, d: Direct, c: Compiler, id: int, s: string, at: nat)
    requires 1 <= at <= |s| && Agree(args, render, d, c) && Deref(args, c.pending) == ArgAt(args, id)
    ensures StepsAgree(args, render, c, AfterArgId(DirectHandler(args, render), d, id, s, at),
                       AfterArgId(CompileHandler(), c, 0, s, at))
  {
    if at < |s| && s[at] == '}' {
      ReplacementsAgree(args, render, d, c, id, at + 1);
    } else if at < |s| && s[at] == ':' {
      OnSpecsAgree(args, render, d, c, id, s[at + 1..]);
    }
  }

  /** One field, from its opening brace to its closing one. */
  lemma FieldAgrees(args: Args, render: Renderer, d: Direct, c: Compiler, s: string)
    requires Agree(args, render, d, c) && s != [] && s[0] == '{'
    ensures StepsAgree(args, render, c, ParseReplacement(DirectHandler(args, render), d, s),
                       ParseReplacement(CompileHandler(), c, s))
  {
    if |s| > 1 {
      if s[1] == '}' {
        AfterIdAgrees(args, render, d, c, Automatic, s, 1);
      } else if s[1] == '{' {
        RunSnoc(args, render, c.parts, Text("{"));
      } else {
        var id := ParseArgId(s[1..]);
        if id.Ok? {
          AfterIdAgrees(args, render, d, c, id.value.0, s, 1 + id.value.1);
        }
      }
    }
  }

  lemma AfterIdAgrees(args: Args, render: Renderer, d: Direct, c: Compiler, id: ArgId, s: string, at: nat)
    requires Agree(args, render, d, c) && 1 <= at <= |s|
    ensures
      var direct, compiled := DirectArgId(args, d, id), CompileArgId(c, id);
      StepsAgree(
        args, render, c,
        if direct.Err? then Err(direct.error)
        else AfterArgId(DirectHandler(args, render), direct.value.0, direct.value.1, s, at),
        if compiled.Err? then Err(compiled.error) else AfterArgId(CompileHandler(), compiled.value.0, 0, s, at))
  {
    ArgIdsAgree(args, d, c, id);
    var direct, compiled := DirectArgId(args, d, id), CompileArgId(c, id);
    if direct.Ok? {
      AfterArgIdAgrees(args, render, direct.value.0, compiled.value.0, direct.value.1, s, at);
    } else if compiled.Ok? {
      var c1 := compiled.value.0;
      AfterArgIdAgrees(args, render, d.(next := c1.next), c1, -1, s, at);
      assert AfterArgId(DirectHandler(args, render), d.(next := c1.next), -1, s, at).Err?;
    }
  }

  // ------------------------------------------------------------ whole strings

  lemma TextAgrees(args: Args, render: Renderer, d: Direct, c: Compiler, text: string)
    requires Agree(args, render, d, c)
    ensures Agree(args, render, d.(out := d.out + text), CompileText(c, text).value)
  {
    if text == [] {
      assert d.out + text == d.out;
    } else {
      RunSnoc(args, render, c.parts, Text(text));
    }
  }

  /** Compiling a field only adds to the parts. */
  lemma FieldExtends(c: Compiler, s: string)
    requires s != [] && s[0] == '{'
    ensures
      var compiled := ParseReplacement(CompileHandler(), c, s);
      compiled.Ok? ==> c.parts <= compiled.value.0.parts
  {
  }

  /** Parts that fail to run keep failing, whatever is compiled after them. */
  lemma StillFails(args: Args, render: Renderer, before: seq<Part>, after: seq<Part>)
    requires before <= after && Run(args, render, before).Err?
    ensures Run(args, render, after).Err?
  {
    assert after[..|before|] == before;
    RunPrefix(args, render, after, |before|);
  }

  /** In agreement, or with parts that cannot be run. */
  ghost function Linked(args: Args, render: Renderer): Link<Direct, Compiler>
  {
    Link((d: Direct, c: Compiler) => Agree(args, render, d, c),
         (c: Compiler) => Run(args, render, c.parts).Err?)
  }

  lemma TextsLinked(args: Args, render: Renderer)
    ensures TextsInStep(AsEvents(DirectHandler(args, render)), AsEvents(CompileHandler()), Linked(args, render))
  {
    var ea, eb, link := AsEvents(DirectHandler(args, render)), AsEvents(CompileHandler()), Linked(args, render);
    forall d, c, text | link.agree(d, c)
      ensures TextInStep(ea.onText(d, text), eb.onText(c, text), link)
    {
      TextAgrees(args, render, d, c, text);
    }
  }

  lemma FieldsLinked(args: Args, render: Renderer)
    ensures FieldsInStep(AsEvents(DirectHandler(args, render)), AsEvents(CompileHandler()), Linked(args, render))
  {
    var ea, eb, link := AsEvents(DirectHandler(args, render)), AsEvents(CompileHandler()), Linked(args, render);
    forall d, c, s | link.agree(d, c) && s != ""
      ensures FieldInStep(ea.onField(d, s), eb.onField(c, s), link)
    {
      if s[0] == '{' {
        FieldAgrees(args, render, d, c, s);
        OnFieldIs(DirectHandler(args, render), d, s);
        OnFieldIs(CompileHandler(), c, s);
      }
    }
  }

  lemma OnFieldIs<H>(handler: Handler<H>, h: H, s: string)
    requires s != "" && s[0] == '{'
    ensures AsEvents(handler).onField(h, s) == ParseReplacement(handler, h, s)
  {
  }

  lemma CompilerStaysLost(args: Args, render: Renderer)
    ensures StaysLost(AsEvents(CompileHandler()), Linked(args, render))
  {
    var eb, link := AsEvents(CompileHandler()), Linked(args, render);
    forall c, text | link.lost(c)
      ensures LostText(eb.onText(c, text), link)
    {
      StillFails(args, render, c.parts, CompileText(c, text).value.parts);
    }
    forall c, s | link.lost(c) && s != ""
      ensures LostField(eb.onField(c, s), link)
    {
      if s[0] == '{' {
        FieldExtends(c, s);
        OnFieldIs(CompileHandler(), c, s);
        var compiled := ParseReplacement(CompileHandler(), c, s);
        if compiled.Ok? {
          StillFails(args, render, c.parts, compiled.value.0.parts);
        }
      }
    }
  }

  // ------------------------------------------------------------- the theorem

  const START := Direct("", 0)
  const EMPTY := Compiler([], NoRef, 0)

  /** The output of formatting directly. */
  ghost function Formatted(args: Args, render: Renderer, s: string): Result<string>
  {
    DirectWellBehaved(args, render);
    var end :- Parse(AsEvents(DirectHandler(args, render)), START, s, 0, |s|);
    Ok(end.out)
  }

  /** The parts that a format string is compiled to. */
  ghost function Compiled(s: string): Result<seq<Part>>
  {
    CompileWellBehaved();
    var end :- Parse(AsEvents(CompileHandler()), EMPTY, s, 0, |s|);
    Ok(end.parts)
  }

  /**
    Formatting directly succeeds exactly when compiling the string and running the
    parts does, and then the outputs are the same.
   */
  lemma CompiledIsDirect(args: Args, render: Renderer, s: string)
    ensures
      var direct, parts := Formatted(args, render, s), Compiled(s);
      && (direct.Ok? <==> parts.Ok? && Run(args, render, parts.value).Ok?)
      && (direct.Ok? ==> Run(args, render, parts.value) == direct)
  {
    DirectWellBehaved(args, render);
    CompileWellBehaved();
    TextsLinked(args, render);
    FieldsLinked(args, render);
    CompilerStaysLost(args, render);
    ParseInStep(AsEvents(DirectHandler(args, render)), AsEvents(CompileHandler()), Linked(args, render),
                START, EMPTY, s, 0, |s|);
  }

  /** Formats directly. */
  method Vformat(args: Args, render: Renderer, s: string) returns (r: Result<string>)
    ensures r == Formatted(args, render, s)
  {
    DirectWellBehaved(args, render);
    var end := ParseFormatString(AsEvents(DirectHandler(args, render)), START, s);
    r := if end.Ok? then Ok(end.value.out) else Err(end.error);
  }

  /** Compiles a format string to parts. */
  method CompileFormatString(s: string) returns (r: Result<seq<Part>>)
    ensures r == Compiled(s)
  {
    CompileWellBehaved();
    var end := ParseFormatString(AsEvents(CompileHandler()), EMPTY, s);
    r := if end.Ok? then Ok(end.value.parts) else Err(end.error);
  }

  /** Compiles and formats in one go: the output of formatting directly, and an error where that is one. */
  method FormatCompiled(args: Args, render: Renderer, s: string) returns (r: Result<string>)
    ensures r.Ok? <==> Formatted(args, render, s).Ok?
    ensures r.Ok? ==> r == Formatted(args, render, s)
  {
    CompiledIsDirect(args, render, s);
    var parts := CompileFormatString(s);
    if parts.Err? {
      return Err(parts.error);
    }
    r := VformatTo(args, render, parts.value);
  }
}
