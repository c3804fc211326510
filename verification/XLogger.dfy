/** The type-safe format interpreter and the log groups of xlogger.h. */
module XLogger {
  import opened Wrappers
  import StringCast

  const NUL: char := '\0'
  const MAX_ARGS: nat := 16

  // ----------------------------------------------------- the meaning of a format

  /** An entry of the argument array: a null pointer, a string_cast whose str() is
      null, or a text, which is a C string. */
  datatype Arg = Missing | NullText | Text(text: string)

  datatype Directive =
    | Literal(c: char)
    | Percent
    | Sequential
    | Positional(k: nat)
    | Bad(next: char)
  {
    predicate TakesArg() {
      Sequential? || Positional?
    }
  }

  /** Which of the two interpreters is meant: XMessage or XLogger. */
  datatype Sink = ToMessage | ToLogger

  /** The character after a percent sign; the terminator when there is none. */
  function NextChar(f: string): char {
    if 1 < |f| then f[1] else NUL
  }

  /** The directive at the front of a format, and how many characters it takes. */
  function Head(f: string): Directive
    requires f != ""
  {
    var next := NextChar(f);
    if f[0] != '%' then Literal(f[0])
    else if '0' <= next <= '9' then Positional(next as int - '0' as int)
    else if next == '_' then Sequential
    else if next == '%' then Percent
    else Bad(next)
  }

  function Width(f: string): nat
    requires f != ""
    ensures 0 < Width(f) <= |f|
  {
    if Head(f).Literal? || Head(f).Bad? then 1 else 2
  }

  function Parse(f: string): seq<Directive> {
    if f == "" then [] else [Head(f)] + Parse(f[Width(f)..])
  }

  function Advance(d: Directive, count: nat): nat {
    if d.TakesArg() then count + 1 else count
  }

  function ArgCount(ds: seq<Directive>): nat {
    if ds == [] then 0 else Advance(ds[0], ArgCount(ds[1..]))
  }

  function ArgIndex(d: Directive, count: nat): nat {
    if d.Positional? then d.k else count
  }

  /** Every argument index of the directives lies inside the array. */
  predicate IndicesOk(ds: seq<Directive>, args: seq<Arg>, count: nat) {
    ds != [] ==>
      && (ds[0].TakesArg() ==> ArgIndex(ds[0], count) < |args|)
      && IndicesOk(ds[1..], args, Advance(ds[0], count))
  }

  predicate IsBad(d: Directive, args: seq<Arg>, count: nat) {
    d.Bad? || (d.TakesArg() && (ArgIndex(d, count) >= |args| || !args[ArgIndex(d, count)].Text?))
  }

  predicate HasBad(ds: seq<Directive>, args: seq<Arg>, count: nat) {
    ds != [] && (IsBad(ds[0], args, count) || HasBad(ds[1..], args, Advance(ds[0], count)))
  }

  const COMPLAINT := "{!!! void XLogger::DoTypeSafeFormat: "

  /** What the argument at index i contributes to the message. */
  function ArgText(sink: Sink, i: nat, arg: Arg): string {
    match arg
    case Text(t) => t
    case NullText =>
      if sink.ToMessage? then "(null)"
      else COMPLAINT + "_args[" + StringCast.Text(i, 10, true) + "]->str() == NULL !!!}"
    case Missing =>
      if sink.ToMessage? then ""
      else COMPLAINT + "_args[" + StringCast.Text(i, 10, true) + "] == NULL !!!}"
  }

  /** What one directive contributes to the message. The sources read past the array
      when the index is outside it; here that adds nothing. */
  function Piece(sink: Sink, d: Directive, args: seq<Arg>, count: nat): string {
    match d
    case Literal(c) => [c]
    case Percent => "%"
    case Bad(next) =>
      if sink.ToMessage? then "" else COMPLAINT + "%" + [next] + " not fit mode !!!}"
    case _ =>
      var i := ArgIndex(d, count);
      if i < |args| then ArgText(sink, i, args[i]) else ""
  }

  function Render(sink: Sink, ds: seq<Directive>, args: seq<Arg>, count: nat): string {
    if ds == [] then ""
    else Piece(sink, ds[0], args, count) + Render(sink, ds[1..], args, Advance(ds[0], count))
  }

  // --------------------------------------------------------------- the loops

  /** What one turn of a format loop does to the directives still to come. */
  lemma FormatStep(f: string, current: nat, width: nat)
    requires current < |f| && width == Width(f[current..])
    ensures current + width <= |f|
    ensures Parse(f[current..]) == [Head(f[current..])] + Parse(f[current + width..])
  {
    assert f[current..][width..] == f[current + width..];
  }

  lemma RenderStep(sink: Sink, d: Directive, rest: seq<Directive>, args: seq<Arg>, count: nat)
    ensures IndicesOk([d] + rest, args, count)
       <==> (d.TakesArg() ==> ArgIndex(d, count) < |args|) && IndicesOk(rest, args, Advance(d, count))
    ensures Render(sink, [d] + rest, args, count)
         == Piece(sink, d, args, count) + Render(sink, rest, args, Advance(d, count))
    ensures HasBad([d] + rest, args, count) <==> IsBad(d, args, count) || HasBad(rest, args, Advance(d, count))
  {
    assert ([d] + rest)[1..] == rest;
  }

  lemma Associate<T>(a: seq<T>, b: seq<T>, c: seq<T>)
    ensures (a + b) + c == a + (b + c)
  {
  }

  /** The turn of a format loop at the cursor: what is written there and what is
      still to come make up the same message as before. */
  lemma LoopStep(sink: Sink, f: string, current: nat, args: seq<Arg>, count: nat, written: string)
    requires current < |f| && IndicesOk(Parse(f[current..]), args, count)
    ensures var d := Head(f[current..]); var next := current + Width(f[current..]);
            && (d.TakesArg() ==> ArgIndex(d, count) < |args|)
            && next <= |f| && IndicesOk(Parse(f[next..]), args, Advance(d, count))
            && written + Render(sink, Parse(f[current..]), args, count)
               == written + Piece(sink, d, args, count) + Render(sink, Parse(f[next..]), args, Advance(d, count))
            && (HasBad(Parse(f[current..]), args, count)
                <==> IsBad(d, args, count) || HasBad(Parse(f[next..]), args, Advance(d, count)))
  {
    var d, next := Head(f[current..]), current + Width(f[current..]);
    FormatStep(f, current, next - current);
    RenderStep(sink, d, Parse(f[next..]), args, count);
    Associate(written, Piece(sink, d, args, count), Render(sink, Parse(f[next..]), args, Advance(d, count)));
  }

  class XMessage {
    var message: string

    constructor (holder: string)
      ensures message == holder
    {
      message := holder;
    }

    /** operator()(TSF, format, a0, ..., an): the argument array has 16 entries, the
        unused ones null; a null format writes nothing. */
    method Format(format: Option<string>, given: seq<Arg>)
      requires |given| <= MAX_ARGS
      requires format.Some? ==> NUL !in format.value && IndicesOk(Parse(format.value), Padded(given), 0)
      modifies this
      ensures message == old(message)
                      + if format.None? then "" else Render(ToMessage, Parse(format.value), Padded(given), 0)
    {
      if format.Some? {
        DoTypeSafeFormat(format.value, Padded(given));
      }
    }

    method DoTypeSafeFormat(format: string, args: seq<Arg>)
      requires NUL !in format && |args| == MAX_ARGS && IndicesOk(Parse(format), args, 0)
      modifies this
      ensures message == old(message) + Render(ToMessage, Parse(format), args, 0)
    {
      ghost var goal := message + Render(ToMessage, Parse(format), args, 0);
      assert format[0..] == format;
      var current, count: nat := 0, 0;
      while current < |format|
        invariant current <= |format|
        invariant IndicesOk(Parse(format[current..]), args, count)
        invariant message + Render(ToMessage, Parse(format[current..]), args, count) == goal
      {
        LoopStep(ToMessage, format, current, args, count, message);
        current, count := DoDirective(format, current, args, count);
      }
    }

    /** One turn of the loop: the directive at the cursor is written and the cursor
        moves past it, never past the terminator. */
    method DoDirective(format: string, current: nat, args: seq<Arg>, count: nat) returns (current': nat, count': nat)
      requires current < |format|
      requires var d := Head(format[current..]); d.TakesArg() ==> ArgIndex(d, count) < |args|
      modifies this
      ensures current < current' == current + Width(format[current..]) <= |format|
      ensures count' == Advance(Head(format[current..]), count)
      ensures message == old(message) + Piece(ToMessage, Head(format[current..]), args, count)
    {
      if format[current] != '%' {
        message := message + [format[current]];
        return current + 1, count;
      }
      var nextch := if current + 1 < |format| then format[current + 1] else NUL;
      if ('0' <= nextch <= '9') || nextch == '_' {
        var argIndex := count;
        if nextch != '_' {
          argIndex := nextch as int - '0' as int;
        }
        if !args[argIndex].Missing? {
          if !args[argIndex].NullText? {
            message := message + args[argIndex].text;
          } else {
            message := message + "(null)";
          }
        }
        return current + 2, count + 1;
      } else if nextch == '%' {
        message := message + "%";
        return current + 2, count;
      } else {
        return current + 1, count;
      }
    }
  }

  function Padded(given: seq<Arg>): (args: seq<Arg>)
    requires |given| <= MAX_ARGS
    ensures |args| == MAX_ARGS && given <= args
    ensures forall k :: |given| <= k < MAX_ARGS ==> args[k] == Missing
  {
    given + seq(MAX_ARGS - |given|, _ => Missing)
  }

  const LEVEL_FATAL: nat := 5

  /** The part of a logger that formatting and merging change. */
  datatype LogState = LogState(level: nat, isAssert: bool, exp: Option<string>, message: string)

  /** What is seen of a text that is handed over as a C string: it ends at the first
      terminator. */
  function CStr(s: string): string {
    if s == "" || s[0] == NUL then "" else [s[0]] + CStr(s[1..])
  }

  /** What a logger's destructor hands to the log. */
  datatype Emission =
    | Nothing
    | Write(level: nat, text: string)
    | AssertLog(level: nat, exp: Option<string>, text: string)

  /** A hook's answer, whether to write, and the level and the text that it leaves: it
      may rewrite both. */
  datatype HookResult = HookResult(write: bool, level: nat, message: string)

  class XLogger {
    var level: nat
    var isAssert: bool
    var exp: Option<string>
    var message: string

    function State(): LogState
      reads this
    {
      LogState(level, isAssert, exp, message)
    }

    constructor (level: nat)
      ensures State() == LogState(level, false, None, "")
    {
      this.level, isAssert, exp, message := level, false, None, "";
    }

    method Assert(e: Option<string>)
      modifies this
      ensures State() == old(State()).(isAssert := true, exp := e)
    {
      isAssert, exp := true, e;
    }

    predicate Empty(): (empty: bool)
      reads this
      ensures empty <==> Emitted(State()) == Nothing
    {
      !isAssert && message == ""
    }

    method Format(format: Option<string>, given: seq<Arg>)
      requires |given| <= MAX_ARGS
      requires format.Some? ==> NUL !in format.value && IndicesOk(Parse(format.value), Padded(given), 0)
      modifies this
      ensures State() == if format.None? then old(State()) else Formatted(old(State()), format.value, Padded(given))
    {
      if format.Some? {
        DoTypeSafeFormat(format.value, Padded(given));
      }
    }

    method DoTypeSafeFormat(format: string, args: seq<Arg>)
      requires NUL !in format && |args| == MAX_ARGS && IndicesOk(Parse(format), args, 0)
      modifies this
      ensures State() == Formatted(old(State()), format, args)
    {
      ghost var goal := Formatted(State(), format, args);
      assert format[0..] == format;
      var current, count: nat := 0, 0;
      while current < |format|
        invariant current <= |format|
        invariant IndicesOk(Parse(format[current..]), args, count)
        invariant FormattedFrom(State(), Parse(format[current..]), args, count) == goal
      {
        ghost var s, at, n := State(), current, count;
        IndexInside(format, current, args, count);
        current, count := DoDirective(format, current, args, count);
        LoggerStep(s, State(), format, at, args, n);
      }
      LoggerDone(State(), format, args, count);
    }

    /** One turn of the loop: the directive at the cursor is written, or complained
        about at the fatal level, and the cursor moves past it. */
    method DoDirective(format: string, current: nat, args: seq<Arg>, count: nat) returns (current': nat, count': nat)
      requires current < |format|
      requires var d := Head(format[current..]); d.TakesArg() ==> ArgIndex(d, count) < |args|
      modifies this
      ensures current < current' == current + Width(format[current..]) <= |format|
      ensures count' == Advance(Head(format[current..]), count)
      ensures message == old(message) + Piece(ToLogger, Head(format[current..]), args, count)
      ensures level == if IsBad(Head(format[current..]), args, count) then LEVEL_FATAL else old(level)
      ensures isAssert == old(isAssert) && exp == old(exp)
    {
      if format[current] != '%' {
        message := message + [format[current]];
        return current + 1, count;
      }
      var nextch := if current + 1 < |format| then format[current + 1] else NUL;
      if ('0' <= nextch <= '9') || nextch == '_' {
        var argIndex := count;
        if nextch != '_' {
          argIndex := nextch as int - '0' as int;
        }
        if !args[argIndex].Missing? {
          if !args[argIndex].NullText? {
            message := message + args[argIndex].text;
          } else {
            level := LEVEL_FATAL;
            message := message + (COMPLAINT + "_args[" + StringCast.Text(argIndex, 10, true) + "]->str() == NULL !!!}");
          }
        } else {
          level := LEVEL_FATAL;
          message := message + (COMPLAINT + "_args[" + StringCast.Text(argIndex, 10, true) + "] == NULL !!!}");
        }
        return current + 2, count + 1;
      } else if nextch == '%' {
        message := message + "%";
        return current + 2, count;
      } else {
        level := LEVEL_FATAL;
        message := message + (COMPLAINT + "%" + [nextch] + " not fit mode !!!}");
        return current + 1, count;
      }
    }

    /** operator>>(XLogger&): adds this logger to a group. A logger merged into
        itself loses its text. */
    method MergeInto(group: XLogger)
      modifies this, group
      ensures group != this ==> group.State() == Merged(old(group.State()), old(State()))
      ensures State() == Drained(old(State())) == LogState(old(level), false, None, "")
    {
      if group.level < level {
        group.level := level;
        group.isAssert := isAssert;
        group.exp := exp;
      }
      isAssert := false;
      exp := None;
      group.message := group.message + message;
      message := "";
    }

    /** The destructor; `hook` is what the hook answers and leaves, if there is one. */
    method Destroy(hook: Option<HookResult>) returns (e: Emission)
      modifies this
      ensures isAssert == old(isAssert) && exp == old(exp)
      ensures old(Empty()) || hook.None? ==> State() == old(State())
      ensures !old(Empty()) && hook.Some? ==> level == hook.value.level && message == hook.value.message
      ensures old(Empty()) || (hook.Some? && !hook.value.write) ==> e == Nothing
      ensures !old(Empty()) && (hook.Some? ==> hook.value.write) ==>
                e == if isAssert then AssertLog(level, exp, CStr(message)) else Write(level, CStr(message))
      ensures hook.None? ==> e == Emitted(old(State()))
    {
      if !isAssert && message == "" {
        return Nothing;
      }
      if hook.Some? {
        level, message := hook.value.level, hook.value.message;
        if !hook.value.write {
          return Nothing;
        }
      }
      if isAssert {
        return AssertLog(level, exp, CStr(message));
      }
      return Write(level, CStr(message));
    }
  }

  /** A logger's state after formatting: the text is appended and the level becomes
      fatal just when a directive is bad. */
  function Formatted(s: LogState, format: string, args: seq<Arg>): LogState {
    FormattedFrom(s, Parse(format), args, 0)
  }

  function FormattedFrom(s: LogState, ds: seq<Directive>, args: seq<Arg>, count: nat): LogState {
    s.(message := s.message + Render(ToLogger, ds, args, count),
       level := if HasBad(ds, args, count) then LEVEL_FATAL else s.level)
  }

  lemma LoggerDone(s: LogState, f: string, args: seq<Arg>, count: nat)
    ensures FormattedFrom(s, Parse(f[|f|..]), args, count) == s
  {
    assert f[|f|..] == "" && s.message + "" == s.message;
  }

  lemma IndexInside(f: string, current: nat, args: seq<Arg>, count: nat)
    requires current < |f| && IndicesOk(Parse(f[current..]), args, count)
    ensures var d := Head(f[current..]); d.TakesArg() ==> ArgIndex(d, count) < |args|
  {
  }

  /** One turn of the logger's loop leaves the outcome as it was. */
  lemma LoggerStep(s: LogState, s': LogState, f: string, current: nat, args: seq<Arg>, count: nat)
    requires current < |f| && IndicesOk(Parse(f[current..]), args, count)
    requires var d := Head(f[current..]);
             s' == s.(message := s.message + Piece(ToLogger, d, args, count),
                      level := if IsBad(d, args, count) then LEVEL_FATAL else s.level)
    ensures var d, next := Head(f[current..]), current + Width(f[current..]);
            && next <= |f| && IndicesOk(Parse(f[next..]), args, Advance(d, count))
            && FormattedFrom(s', Parse(f[next..]), args, Advance(d, count))
               == FormattedFrom(s, Parse(f[current..]), args, count)
  {
    LoopStep(ToLogger, f, current, args, count, s.message);
  }

  // ------------------------------------------------------- argument directives

  lemma {:induction false} SixteenArgsOk(ds: seq<Directive>, args: seq<Arg>, count: nat)
    requires |args| == MAX_ARGS && count + ArgCount(ds) <= MAX_ARGS
    requires forall d :: d in ds && d.Positional? ==> d.k <= 9
    ensures IndicesOk(ds, args, count)
  {
    if ds != [] {
      assert ds[0] in ds;
      SixteenArgsOk(ds[1..], args, Advance(ds[0], count));
    }
  }

  lemma {:induction false} ParsedPositions(f: string)
    ensures forall d :: d in Parse(f) && d.Positional? ==> d.k <= 9
    decreases |f|
  {
    if f != "" {
      ParsedPositions(f[Width(f)..]);
    }
  }

  /** A format with at most 16 argument directives stays inside the array, whatever
      else it contains. */
  lemma FormatArgsOk(f: string, args: seq<Arg>)
    requires |args| == MAX_ARGS && ArgCount(Parse(f)) <= MAX_ARGS
    ensures IndicesOk(Parse(f), args, 0)
  {
    ParsedPositions(f);
    SixteenArgsOk(Parse(f), args, 0);
  }

  lemma ArgCountShift(ds: seq<Directive>, i: nat)
    requires 0 < i <= |ds|
    ensures ArgCount(ds[..i]) == Advance(ds[0], ArgCount(ds[1..][..i - 1]))
  {
    assert ds[..i][1..] == ds[1..][..i - 1];
  }

  /** An argument index leaves the array exactly when a sequential directive has 16
      or more argument directives before it, positional ones counted too. */
  lemma {:induction false} IndicesOkMeaning(ds: seq<Directive>, args: seq<Arg>, count: nat)
    requires |args| == MAX_ARGS
    requires forall d :: d in ds && d.Positional? ==> d.k <= 9
    ensures IndicesOk(ds, args, count)
       <==> forall i :: 0 <= i < |ds| && ds[i].Sequential? ==> count + ArgCount(ds[..i]) < MAX_ARGS
  {
    if ds != [] {
      var count' := Advance(ds[0], count);
      assert ds[0] in ds;
      IndicesOkMeaning(ds[1..], args, count');
      forall i | 0 < i < |ds|
        ensures count + ArgCount(ds[..i]) == count' + ArgCount(ds[1..][..i - 1])
      {
        ArgCountShift(ds, i);
      }
      assert forall i :: 0 < i < |ds| ==> ds[i] == ds[1..][i - 1];
      assert forall i :: 0 <= i < |ds| - 1 ==> ds[1..][i] == ds[i + 1];
    }
  }

  /** "%_" n times. */
  function Sequentials(n: nat): string {
    if n == 0 then "" else "%_" + Sequentials(n - 1)
  }

  lemma {:induction false} SequentialsMeaning(n: nat, args: seq<Arg>, count: nat)
    requires |args| == MAX_ARGS
    ensures IndicesOk(Parse(Sequentials(n)), args, count) <==> n == 0 || count + n <= MAX_ARGS
  {
    if n > 0 {
      var rest := Sequentials(n - 1);
      assert ("%_" + rest)[2..] == rest;
      assert Parse(Sequentials(n)) == [Sequential] + Parse(rest);
      SequentialsMeaning(n - 1, args, count + 1);
    }
  }

  /** The sources read past the argument array for seventeen "%_", not for sixteen. */
  lemma SeventeenRunOver(args: seq<Arg>)
    requires |args| == MAX_ARGS
    ensures IndicesOk(Parse(Sequentials(16)), args, 0) && !IndicesOk(Parse(Sequentials(17)), args, 0)
  {
    SequentialsMeaning(16, args, 0);
    SequentialsMeaning(17, args, 0);
  }

  lemma {:induction false} BadWitness(ds: seq<Directive>, args: seq<Arg>, count: nat) returns (i: nat)
    requires HasBad(ds, args, count)
    ensures i < |ds| && IsBad(ds[i], args, count + ArgCount(ds[..i]))
  {
    i := 0;
    if !IsBad(ds[0], args, count) {
      i := BadWitness(ds[1..], args, Advance(ds[0], count));
      i := i + 1;
      ArgCountShift(ds, i);
    }
  }

  lemma {:induction false} WitnessIsBad(ds: seq<Directive>, args: seq<Arg>, count: nat, i: nat)
    requires i < |ds| && IsBad(ds[i], args, count + ArgCount(ds[..i]))
    ensures HasBad(ds, args, count)
  {
    if 0 < i {
      ArgCountShift(ds, i);
      WitnessIsBad(ds[1..], args, Advance(ds[0], count), i - 1);
    }
  }

  /** The level becomes fatal exactly when some directive is malformed, or names an
      argument that is absent or has no text. */
  lemma HasBadMeaning(ds: seq<Directive>, args: seq<Arg>, count: nat)
    ensures HasBad(ds, args, count)
       <==> exists i :: 0 <= i < |ds| && IsBad(ds[i], args, count + ArgCount(ds[..i]))
  {
    if HasBad(ds, args, count) {
      var i := BadWitness(ds, args, count);
    } else {
      forall i | 0 <= i < |ds|
        ensures !IsBad(ds[i], args, count + ArgCount(ds[..i]))
      {
        if IsBad(ds[i], args, count + ArgCount(ds[..i])) {
          WitnessIsBad(ds, args, count, i);
        }
      }
    }
  }

  // -------------------------------------------------------------- composition

  lemma {:induction false} ChecksAppend(ds: seq<Directive>, es: seq<Directive>, args: seq<Arg>, count: nat)
    ensures IndicesOk(ds + es, args, count) <==> IndicesOk(ds, args, count) && IndicesOk(es, args, count + ArgCount(ds))
    ensures HasBad(ds + es, args, count) <==> HasBad(ds, args, count) || HasBad(es, args, count + ArgCount(ds))
  {
    if ds == [] {
      assert ds + es == es;
    } else {
      assert (ds + es)[1..] == ds[1..] + es;
      ChecksAppend(ds[1..], es, args, Advance(ds[0], count));
    }
  }

  lemma FrontOfBoth<T>(d: T, rest: seq<T>, ds: seq<T>, es: seq<T>)
    requires ds == [d] + rest
    ensures ds + es == [d] + (rest + es)
  {
  }

  lemma {:induction false} RenderAppend(sink: Sink, ds: seq<Directive>, es: seq<Directive>, both: seq<Directive>,
                                        args: seq<Arg>, count: nat, count': nat)
    requires both == ds + es && count' == count + ArgCount(ds)
    ensures Render(sink, both, args, count) == Render(sink, ds, args, count) + Render(sink, es, args, count')
    decreases |ds|
  {
    if ds == [] {
      assert both == es;
    } else {
      var d, rest, next := ds[0], ds[1..], Advance(ds[0], count);
      FrontOfBoth(d, rest, ds, es);
      RenderAppend(sink, rest, es, rest + es, args, next, count');
      RenderStep(sink, d, rest + es, args, count);
      RenderStep(sink, d, rest, args, count);
      Associate(Piece(sink, d, args, count), Render(sink, rest, args, next), Render(sink, es, args, count'));
    }
  }

  predicate AllPercents(f: string) {
    f == "" || (f[0] == '%' && AllPercents(f[1..]))
  }

  /** The number of percent signs that end a format. */
  function TrailingPercents(f: string): nat {
    if AllPercents(f) then |f| else TrailingPercents(f[1..])
  }

  lemma TrailingPercentsStep(f: string)
    requires f != "" && f != "%"
    ensures TrailingPercents(f) % 2 == TrailingPercents(f[Width(f)..]) % 2
  {
    if Width(f) == 2 {
      assert f[1..][1..] == f[2..];
      assert AllPercents(f) <==> f[1] == '%' && AllPercents(f[2..]);
      assert f[1] != '%' ==> !AllPercents(f[1..]);
    }
  }

  /** Parsing distributes over concatenation exactly when the first format does not
      end in the middle of a directive, that is, in an odd number of percent signs. */
  lemma {:induction false} ParseAppend(f: string, g: string)
    requires NUL !in g
    ensures Parse(f + g) == Parse(f) + Parse(g) <==> TrailingPercents(f) % 2 == 0 || g == ""
    decreases |f|
  {
    if f == "" || g == "" {
      assert f + g == if f == "" then g else f;
    } else if f == "%" {
      assert (f + g)[1] == g[0] && g[0] in g;
      assert Parse(f + g)[0] != Bad(NUL) && (Parse(f) + Parse(g))[0] == Bad(NUL);
    } else {
      var w := Width(f);
      assert Head(f + g) == Head(f) && (f + g)[w..] == f[w..] + g;
      TrailingPercentsStep(f);
      ParseAppend(f[w..], g);
      PrependIff([Head(f)], Parse(f[w..] + g), Parse(f[w..]), Parse(g));
    }
  }

  lemma PrependIff<T>(p: seq<T>, x: seq<T>, y: seq<T>, z: seq<T>)
    ensures p + x == (p + y) + z <==> x == y + z
  {
    assert (p + y) + z == p + (y + z);
    assert (p + x)[|p|..] == x && (p + (y + z))[|p|..] == y + z;
  }

  /** Formatting f and then g, the argument counter moved on past f's argument
      directives, is formatting f + g, when f ends on a directive boundary. */
  lemma FormatComposes(sink: Sink, f: string, g: string, args: seq<Arg>)
    requires NUL !in g && TrailingPercents(f) % 2 == 0
    requires IndicesOk(Parse(f + g), args, 0)
    ensures IndicesOk(Parse(f), args, 0) && IndicesOk(Parse(g), args, ArgCount(Parse(f)))
    ensures Render(sink, Parse(f + g), args, 0)
         == Render(sink, Parse(f), args, 0) + Render(sink, Parse(g), args, ArgCount(Parse(f)))
    ensures HasBad(Parse(f + g), args, 0) <==> HasBad(Parse(f), args, 0) || HasBad(Parse(g), args, ArgCount(Parse(f)))
  {
    ParseAppend(f, g);
    DirectivesCompose(sink, Parse(f), Parse(g), Parse(f + g), args);
  }

  lemma DirectivesCompose(sink: Sink, ds: seq<Directive>, es: seq<Directive>, both: seq<Directive>, args: seq<Arg>)
    requires both == ds + es
    ensures IndicesOk(both, args, 0) <==> IndicesOk(ds, args, 0) && IndicesOk(es, args, ArgCount(ds))
    ensures Render(sink, both, args, 0) == Render(sink, ds, args, 0) + Render(sink, es, args, ArgCount(ds))
    ensures HasBad(both, args, 0) <==> HasBad(ds, args, 0) || HasBad(es, args, ArgCount(ds))
  {
    ChecksAppend(ds, es, args, 0);
    RenderAppend(sink, ds, es, both, args, 0, ArgCount(ds));
  }

  // ------------------------------------------------------------------ escaping

  function Escape(s: string): string {
    if s == "" then "" else (if s[0] == '%' then "%%" else [s[0]]) + Escape(s[1..])
  }

  function EscapedDirectives(s: string): seq<Directive> {
    if s == "" then [] else [if s[0] == '%' then Percent else Literal(s[0])] + EscapedDirectives(s[1..])
  }

  lemma ParseEscapedChar(c: char, g: string)
    ensures Parse(Escape([c]) + g) == EscapedDirectives([c]) + Parse(g)
  {
    assert [c][1..] == "";
    assert Escape([c]) == if c == '%' then "%%" else [c];
    var f := Escape([c]) + g;
    assert f[|Escape([c])|..] == g && Width(f) == |Escape([c])|;
  }

  lemma EscapeCons(s: string, c: string)
    requires s != "" && c == [s[0]]
    ensures Escape(s) == Escape(c) + Escape(s[1..])
    ensures EscapedDirectives(s) == EscapedDirectives(c) + EscapedDirectives(s[1..])
  {
    assert c[1..] == "";
    assert Escape("") == "" && EscapedDirectives("") == [];
  }

  lemma {:induction false} ParseEscaped(s: string, g: string)
    ensures Parse(Escape(s) + g) == EscapedDirectives(s) + Parse(g)
  {
    if s == "" {
      assert Escape(s) + g == g;
    } else {
      EscapeCons(s, [s[0]]);
      ParseEscaped(s[1..], g);
      ParseEscapedChar(s[0], Escape(s[1..]) + g);
      Associate(Escape([s[0]]), Escape(s[1..]), g);
      Associate(EscapedDirectives([s[0]]), EscapedDirectives(s[1..]), Parse(g));
    }
  }

  lemma {:induction false} RenderEscaped(sink: Sink, s: string, args: seq<Arg>, count: nat)
    ensures var ds := EscapedDirectives(s);
            && ArgCount(ds) == 0
            && IndicesOk(ds, args, count)
            && !HasBad(ds, args, count)
            && Render(sink, ds, args, count) == s
  {
    if s != "" {
      RenderEscaped(sink, s[1..], args, count);
      var ds := EscapedDirectives(s);
      assert ds[1..] == EscapedDirectives(s[1..]);
    }
  }

  /** An escaped text in front of a format adds that text and changes nothing else. */
  lemma EscapedPrefix(sink: Sink, s: string, g: string, args: seq<Arg>, count: nat)
    ensures var ds := Parse(Escape(s) + g);
            && (IndicesOk(ds, args, count) <==> IndicesOk(Parse(g), args, count))
            && Render(sink, ds, args, count) == s + Render(sink, Parse(g), args, count)
            && (HasBad(ds, args, count) <==> HasBad(Parse(g), args, count))
  {
    ParseEscaped(s, g);
    RenderEscaped(sink, s, args, count);
    var ds := EscapedDirectives(s);
    ChecksAppend(ds, Parse(g), args, count);
    RenderAppend(sink, ds, Parse(g), ds + Parse(g), args, count, count);
  }

  /** Doubling every percent sign of any text and formatting it gives the text back,
      on both sinks, with no argument read and no directive bad. */
  lemma EscapeUndone(sink: Sink, s: string, args: seq<Arg>)
    ensures var ds := Parse(Escape(s));
            && IndicesOk(ds, args, 0)
            && Render(sink, ds, args, 0) == s
            && !HasBad(ds, args, 0)
  {
    EscapedPrefix(sink, s, "", args, 0);
    assert Escape(s) + "" == Escape(s);
  }

  /** A place for an argument in a template: the next one, or the one with an index. */
  datatype Slot = Next | At(k: nat)

  function SlotText(slot: Slot): string
    requires slot.At? ==> slot.k <= 9
  {
    if slot.Next? then "%_" else "%" + ["0123456789"[slot.k]]
  }

  function SlotIndex(slot: Slot, count: nat): nat {
    if slot.Next? then count else slot.k
  }

  /** Every slot names an argument with a text; each one moves the count on. */
  ghost predicate SlotsFilled(slots: seq<Slot>, args: seq<Arg>, count: nat) {
    forall i :: 0 <= i < |slots| ==>
                  && (slots[i].At? ==> slots[i].k <= 9)
                  && SlotIndex(slots[i], count + i) < |args| && args[SlotIndex(slots[i], count + i)].Text?
  }

  lemma SlotsFilledTail(slots: seq<Slot>, args: seq<Arg>, count: nat)
    requires slots != [] && SlotsFilled(slots, args, count)
    ensures SlotsFilled(slots[1..], args, count + 1)
  {
    forall i | 0 <= i < |slots| - 1
      ensures slots[1..][i] == slots[i + 1] && count + 1 + i == count + (i + 1)
    {
    }
  }

  /** Escaped literals with the slots between them. */
  function Template(literals: seq<string>, slots: seq<Slot>): string
    requires |literals| == |slots| + 1
    requires forall i :: 0 <= i < |slots| && slots[i].At? ==> slots[i].k <= 9
  {
    if slots == [] then Escape(literals[0])
    else Escape(literals[0]) + (SlotText(slots[0]) + Template(literals[1..], slots[1..]))
  }

  /** The literals with the arguments that the slots name between them. */
  ghost function Woven(literals: seq<string>, slots: seq<Slot>, args: seq<Arg>, count: nat): string
    requires |literals| == |slots| + 1 && SlotsFilled(slots, args, count)
  {
    if slots == [] then literals[0]
    else
      SlotsFilledTail(slots, args, count);
      literals[0] + args[SlotIndex(slots[0], count)].text + Woven(literals[1..], slots[1..], args, count + 1)
  }

  lemma SlotParses(slot: Slot, g: string)
    requires slot.At? ==> slot.k <= 9
    ensures Parse(SlotText(slot) + g) == [if slot.Next? then Sequential else Positional(slot.k)] + Parse(g)
  {
    var f := SlotText(slot) + g;
    assert f[2..] == g;
    assert f[1] == if slot.Next? then '_' else '0' + slot.k as char;
  }

  /** A slot in front of a format adds its argument and moves the count on by one,
      whether it is positional or not. */
  lemma SlotPrefix(sink: Sink, slot: Slot, g: string, args: seq<Arg>, count: nat)
    requires slot.At? ==> slot.k <= 9
    requires SlotIndex(slot, count) < |args| && args[SlotIndex(slot, count)].Text?
    ensures var ds := Parse(SlotText(slot) + g);
            && (IndicesOk(ds, args, count) <==> IndicesOk(Parse(g), args, count + 1))
            && Render(sink, ds, args, count)
               == args[SlotIndex(slot, count)].text + Render(sink, Parse(g), args, count + 1)
            && (HasBad(ds, args, count) <==> HasBad(Parse(g), args, count + 1))
  {
    SlotParses(slot, g);
    RenderStep(sink, if slot.Next? then Sequential else Positional(slot.k), Parse(g), args, count);
  }

  /** Escaped literals interleaved with sequential and positional directives yield the
      literals and the named arguments in order, on both sinks, with no directive bad. */
  lemma {:induction false} TemplateWeaves(sink: Sink, literals: seq<string>, slots: seq<Slot>, args: seq<Arg>,
                                          count: nat)
    requires |literals| == |slots| + 1 && SlotsFilled(slots, args, count)
    ensures var ds := Parse(Template(literals, slots));
            && IndicesOk(ds, args, count)
            && Render(sink, ds, args, count) == Woven(literals, slots, args, count)
            && !HasBad(ds, args, count)
  {
    if slots == [] {
      EscapedPrefix(sink, literals[0], "", args, count);
      assert Escape(literals[0]) + "" == Escape(literals[0]);
    } else {
      SlotsFilledTail(slots, args, count);
      TemplateWeaves(sink, literals[1..], slots[1..], args, count + 1);
      assert count + 0 == count;
      LiteralSlotPrefix(sink, literals[0], slots[0], Template(literals[1..], slots[1..]), args, count);
    }
  }

  lemma LiteralSlotPrefix(sink: Sink, literal: string, slot: Slot, g: string, args: seq<Arg>, count: nat)
    requires slot.At? ==> slot.k <= 9
    requires SlotIndex(slot, count) < |args| && args[SlotIndex(slot, count)].Text?
    ensures var ds := Parse(Escape(literal) + (SlotText(slot) + g));
            && (IndicesOk(ds, args, count) <==> IndicesOk(Parse(g), args, count + 1))
            && Render(sink, ds, args, count)
               == literal + args[SlotIndex(slot, count)].text + Render(sink, Parse(g), args, count + 1)
            && (HasBad(ds, args, count) <==> HasBad(Parse(g), args, count + 1))
  {
    SlotPrefix(sink, slot, g, args, count);
    EscapedPrefix(sink, literal, SlotText(slot) + g, args, count);
    Associate(literal, args[SlotIndex(slot, count)].text, Render(sink, Parse(g), args, count + 1));
  }

  lemma {:induction false} TemplateHasNoNul(literals: seq<string>, slots: seq<Slot>)
    requires |literals| == |slots| + 1 && forall l :: l in literals ==> NUL !in l
    requires forall i :: 0 <= i < |slots| && slots[i].At? ==> slots[i].k <= 9
    ensures NUL !in Template(literals, slots)
  {
    EscapeHasNoNul(literals[0]);
    if slots != [] {
      assert NUL !in SlotText(slots[0]);
      TemplateHasNoNul(literals[1..], slots[1..]);
    }
  }

  lemma {:induction false} EscapeHasNoNul(s: string)
    requires NUL !in s
    ensures NUL !in Escape(s)
  {
    if s != "" {
      EscapeHasNoNul(s[1..]);
    }
  }

  /** Entries behind the given arguments do not matter. */
  lemma {:induction false} WovenPrefix(literals: seq<string>, slots: seq<Slot>, given: seq<Arg>, args: seq<Arg>,
                                       count: nat)
    requires |literals| == |slots| + 1 && given <= args && SlotsFilled(slots, given, count)
    ensures SlotsFilled(slots, args, count)
    ensures Woven(literals, slots, args, count) == Woven(literals, slots, given, count)
  {
    if slots != [] {
      SlotsFilledTail(slots, given, count);
      WovenPrefix(literals[1..], slots[1..], given, args, count + 1);
    }
  }

  /** What a call does whose slots name any of up to 16 given arguments with texts, the
      array padded with null entries behind them: on both classes it may be made, adds
      the literals and the arguments in order, and leaves the level alone. */
  lemma TemplateCall(literals: seq<string>, slots: seq<Slot>, given: seq<Arg>)
    requires |literals| == |slots| + 1 && |given| <= MAX_ARGS && SlotsFilled(slots, given, 0)
    requires forall l :: l in literals ==> NUL !in l
    ensures var f := Template(literals, slots);
            && NUL !in f && IndicesOk(Parse(f), Padded(given), 0)
            && Render(ToMessage, Parse(f), Padded(given), 0) == Woven(literals, slots, given, 0)
            && forall s :: Formatted(s, f, Padded(given)) == s.(message := s.message + Woven(literals, slots, given, 0))
  {
    TemplateHasNoNul(literals, slots);
    WovenPrefix(literals, slots, given, Padded(given), 0);
    TemplateWeaves(ToMessage, literals, slots, Padded(given), 0);
    TemplateWeaves(ToLogger, literals, slots, Padded(given), 0);
  }

  /** The ordinary calls. */
  method TemplateToMessage(x: XMessage, literals: seq<string>, slots: seq<Slot>, given: seq<Arg>)
    requires |literals| == |slots| + 1 && |given| <= MAX_ARGS && SlotsFilled(slots, given, 0)
    requires forall l :: l in literals ==> NUL !in l
    modifies x
    ensures x.message == old(x.message) + Woven(literals, slots, given, 0)
  {
    TemplateCall(literals, slots, given);
    x.Format(Some(Template(literals, slots)), given);
  }

  method TemplateToLogger(x: XLogger, literals: seq<string>, slots: seq<Slot>, given: seq<Arg>)
    requires |literals| == |slots| + 1 && |given| <= MAX_ARGS && SlotsFilled(slots, given, 0)
    requires forall l :: l in literals ==> NUL !in l
    modifies x
    ensures x.State() == old(x.State()).(message := old(x.message) + Woven(literals, slots, given, 0))
  {
    TemplateCall(literals, slots, given);
    x.Format(Some(Template(literals, slots)), given);
  }

  // ---------------------------------------------------------- what goes wrong

  /** A percent sign in front of any other character is dropped from a message, and
      complained about in a log; that character is then read as if it stood alone. */
  lemma BadDirective(c: char, g: string, args: seq<Arg>, count: nat)
    requires !('0' <= c <= '9') && c != '_' && c != '%'
    ensures var f, rest := "%" + ([c] + g), [c] + g;
            && HasBad(Parse(f), args, count)
            && (IndicesOk(Parse(f), args, count) <==> IndicesOk(Parse(rest), args, count))
            && Render(ToMessage, Parse(f), args, count) == Render(ToMessage, Parse(rest), args, count)
            && Render(ToLogger, Parse(f), args, count)
               == "{!!! void XLogger::DoTypeSafeFormat: %" + [c] + " not fit mode !!!}"
                  + Render(ToLogger, Parse(rest), args, count)
  {
    var f, rest := "%" + ([c] + g), [c] + g;
    assert f[1..] == rest && f[1] == c;
    assert Parse(f) == [Bad(c)] + Parse(rest);
    RenderStep(ToMessage, Bad(c), Parse(rest), args, count);
    RenderStep(ToLogger, Bad(c), Parse(rest), args, count);
    assert "" + Render(ToMessage, Parse(rest), args, count) == Render(ToMessage, Parse(rest), args, count);
  }

  /** A slot whose argument is absent or has no text: a message gets nothing, or
      "(null)", and a log a complaint that names the index. */
  lemma UnfilledSlot(slot: Slot, g: string, args: seq<Arg>, count: nat)
    requires slot.At? ==> slot.k <= 9
    requires SlotIndex(slot, count) < |args| && !args[SlotIndex(slot, count)].Text?
    ensures var ds, i, rest := Parse(SlotText(slot) + g), SlotIndex(slot, count), Parse(g);
            && HasBad(ds, args, count)
            && Render(ToMessage, ds, args, count)
               == (if args[i] == Missing then "" else "(null)") + Render(ToMessage, rest, args, count + 1)
            && Render(ToLogger, ds, args, count)
               == "{!!! void XLogger::DoTypeSafeFormat: _args[" + StringCast.Text(i, 10, true)
                  + (if args[i] == Missing then "] == NULL !!!}" else "]->str() == NULL !!!}")
                  + Render(ToLogger, rest, args, count + 1)
  {
    var d := if slot.Next? then Sequential else Positional(slot.k);
    SlotParses(slot, g);
    UnfilledPiece(d, args, count);
    UnfilledStep(ToMessage, d, Parse(SlotText(slot) + g), Parse(g), args, count);
    UnfilledStep(ToLogger, d, Parse(SlotText(slot) + g), Parse(g), args, count);
  }

  lemma UnfilledStep(sink: Sink, d: Directive, ds: seq<Directive>, rest: seq<Directive>, args: seq<Arg>, count: nat)
    requires ds == [d] + rest && d.TakesArg() && IsBad(d, args, count)
    ensures HasBad(ds, args, count)
    ensures Render(sink, ds, args, count) == Piece(sink, d, args, count) + Render(sink, rest, args, count + 1)
  {
    RenderStep(sink, d, rest, args, count);
  }

  lemma UnfilledPiece(d: Directive, args: seq<Arg>, count: nat)
    requires d.TakesArg() && ArgIndex(d, count) < |args| && !args[ArgIndex(d, count)].Text?
    ensures var i := ArgIndex(d, count);
            && Piece(ToMessage, d, args, count) == (if args[i] == Missing then "" else "(null)")
            && Piece(ToLogger, d, args, count)
               == "{!!! void XLogger::DoTypeSafeFormat: _args[" + StringCast.Text(i, 10, true)
                  + (if args[i] == Missing then "] == NULL !!!}" else "]->str() == NULL !!!}")
  {
    assert COMPLAINT + "_args[" == "{!!! void XLogger::DoTypeSafeFormat: _args[";
  }

  /** Formatting a logger makes it fatal exactly when a directive is bad; nothing else
      but its text changes. */
  lemma FatalExactlyWhenBad(s: LogState, f: string, args: seq<Arg>)
    ensures var s' := Formatted(s, f, args);
            && (HasBad(Parse(f), args, 0) ==> s'.level == 5) && (!HasBad(Parse(f), args, 0) ==> s'.level == s.level)
            && s'.isAssert == s.isAssert && s'.exp == s.exp && s.message <= s'.message
  {
  }

  // ----------------------------------------------------------- argument texts

  /** The argument array with every text made empty. */
  function Blanked(args: seq<Arg>): (blank: seq<Arg>)
    ensures |blank| == |args|
  {
    seq(|args|, k requires 0 <= k < |args| => if args[k].Text? then Text("") else args[k])
  }

  /** The text that a directive takes from the array; none if it is no argument
      directive or its entry holds no text. */
  function TakenText(d: Directive, args: seq<Arg>, count: nat): string {
    if d.TakesArg() && !IsBad(d, args, count) then args[ArgIndex(d, count)].text else ""
  }

  /** A format with each argument's text written in front of its directive as an escaped
      literal; every directive, the bad ones too, stays in its place. */
  function Moved(f: string, args: seq<Arg>, count: nat): string
    decreases |f|
  {
    if f == "" then ""
    else
      Escape(TakenText(Head(f), args, count))
      + (f[..Width(f)] + Moved(f[Width(f)..], args, Advance(Head(f), count)))
  }

  lemma BlankedPiece(sink: Sink, d: Directive, args: seq<Arg>, count: nat)
    ensures Piece(sink, d, args, count) == TakenText(d, args, count) + Piece(sink, d, Blanked(args), count)
    ensures IsBad(d, Blanked(args), count) <==> IsBad(d, args, count)
  {
  }

  /** A directive is read in the same way in front of another format; a bad one, if the
      character that makes it bad is still there. */
  lemma KeptDirective(f: string, rest: string)
    requires f != "" && (Head(f).Bad? ==> NextChar("%" + rest) == NextChar(f))
    ensures Parse(f[..Width(f)] + rest) == [Head(f)] + Parse(rest)
  {
    var w := Width(f);
    var g := f[..w] + rest;
    assert g[w..] == rest && g[0] == f[0];
    if w == 2 {
      assert g[1] == f[1];
    } else if Head(f).Bad? {
      assert g == "%" + rest;
    }
    assert Head(g) == Head(f);
  }

  lemma MovedFront(f: string, args: seq<Arg>, count: nat)
    requires f != "" && Head(f).Bad?
    ensures NextChar("%" + Moved(f[1..], args, count)) == NextChar(f)
  {
    var rest := f[1..];
    if rest != "" {
      assert Head(rest) == Literal(f[1]) && Width(rest) == 1;
      assert Escape("") == "" && Moved(rest, args, count)[0] == f[1];
    }
  }

  /** Argument text is never scanned for directives, whatever the format: written into
      the format as escaped literals, with only empty texts left in the array, it gives
      the same message, the same indices and the same bad directives. */
  lemma {:induction false} ArgumentsAreLiteral(sink: Sink, f: string, args: seq<Arg>, count: nat)
    ensures var ds, es := Parse(f), Parse(Moved(f, args, count));
            && Render(sink, es, Blanked(args), count) == Render(sink, ds, args, count)
            && (IndicesOk(es, Blanked(args), count) <==> IndicesOk(ds, args, count))
            && (HasBad(es, Blanked(args), count) <==> HasBad(ds, args, count))
    decreases |f|
  {
    if f != "" {
      var d, rest := Head(f), f[Width(f)..];
      var count' := Advance(d, count);
      var text, moved := TakenText(d, args, count), Moved(rest, args, count');
      ArgumentsAreLiteral(sink, rest, args, count');
      if d.Bad? {
        MovedFront(f, args, count');
      }
      KeptDirective(f, moved);
      EscapedPrefix(sink, text, f[..Width(f)] + moved, Blanked(args), count);
      RenderStep(sink, d, Parse(moved), Blanked(args), count);
      RenderStep(sink, d, Parse(rest), args, count);
      BlankedPiece(sink, d, args, count);
      Associate(text, Piece(sink, d, Blanked(args), count), Render(sink, Parse(moved), Blanked(args), count'));
    }
  }

  /** A format with its argument directives replaced by the escaped argument texts. */
  function Inlined(ds: seq<Directive>, args: seq<Arg>, count: nat): string
    requires IndicesOk(ds, args, count) && !HasBad(ds, args, count)
  {
    if ds == [] then ""
    else Escape(Piece(ToMessage, ds[0], args, count)) + Inlined(ds[1..], args, Advance(ds[0], count))
  }

  /** Without bad directives the argument directives may go too: the message is then
      the same whatever the array holds. */
  lemma {:induction false} ArgumentsInlined(sink: Sink, ds: seq<Directive>, args: seq<Arg>, count: nat,
                                            other: seq<Arg>)
    requires IndicesOk(ds, args, count) && !HasBad(ds, args, count)
    ensures var es := Parse(Inlined(ds, args, count));
            && IndicesOk(es, other, 0)
            && Render(sink, es, other, 0) == Render(sink, ds, args, count)
            && !HasBad(es, other, 0)
  {
    if ds != [] {
      var piece := Piece(ToMessage, ds[0], args, count);
      var count' := Advance(ds[0], count);
      var rest := Inlined(ds[1..], args, count');
      ArgumentsInlined(sink, ds[1..], args, count', other);
      EscapedPrefix(sink, piece, rest, other, 0);
    }
  }

  // ------------------------------------------------------------------- groups

  /** The group after a source has been merged into it. */
  function Merged(group: LogState, source: LogState): LogState {
    var text := group.message + source.message;
    if group.level < source.level then source.(message := text) else group.(message := text)
  }

  /** The source afterwards: empty. */
  function Drained(source: LogState): LogState {
    source.(isAssert := false, exp := None, message := "")
  }

  /** What a logger without a hook hands over. */
  function Emitted(s: LogState): Emission {
    if !s.isAssert && s.message == "" then Nothing
    else if s.isAssert then AssertLog(s.level, s.exp, CStr(s.message))
    else Write(s.level, CStr(s.message))
  }

  function MergedAll(group: LogState, sources: seq<LogState>): LogState
    decreases |sources|
  {
    if sources == [] then group else MergedAll(Merged(group, sources[0]), sources[1..])
  }

  function EmittedText(e: Emission): string {
    if e.Nothing? then "" else e.text
  }

  function AllText(states: seq<LogState>): string {
    if states == [] then "" else EmittedText(Emitted(states[0])) + AllText(states[1..])
  }

  function AllMessages(states: seq<LogState>): string {
    if states == [] then "" else states[0].message + AllMessages(states[1..])
  }

  lemma InCons(s: string, c: char)
    requires s != ""
    ensures c in s <==> s[0] == c || c in s[1..]
  {
  }

  lemma CStrCons(c: char, s: string)
    ensures CStr([c] + s) == if c == NUL then "" else [c] + CStr(s)
  {
    assert ([c] + s)[1..] == s;
  }

  lemma {:induction false} CStrAppend(s: string, r: string)
    ensures CStr(s + r) == if NUL in s then CStr(s) else s + CStr(r)
  {
    if s == "" {
      assert s + r == r;
    } else {
      var c, rest := s[0], s[1..];
      InCons(s, NUL);
      CStrAppend(rest, r);
      CStrCons(c, rest + r);
      FrontOfBoth(c, rest, s, r);
      FrontOfBoth(c, rest, s, CStr(r));
    }
  }

  /** The text of the group is that of all the loggers in order, and what it writes
      is what is seen of that text. */
  lemma {:induction false} MergeKeepsText(group: LogState, sources: seq<LogState>)
    ensures MergedAll(group, sources).message == AllMessages([group] + sources)
    ensures EmittedText(Emitted(MergedAll(group, sources))) == CStr(AllMessages([group] + sources))
    decreases |sources|
  {
    MessagesCons(group, sources);
    if sources != [] {
      var merged := Merged(group, sources[0]);
      MergeKeepsText(merged, sources[1..]);
      MessagesCons(merged, sources[1..]);
      MessagesCons(sources[0], sources[1..]);
      assert sources == [sources[0]] + sources[1..];
      Associate(group.message, sources[0].message, AllMessages(sources[1..]));
    }
  }

  lemma MessagesCons(s: LogState, rest: seq<LogState>)
    ensures AllMessages([s] + rest) == s.message + AllMessages(rest)
  {
    assert ([s] + rest)[1..] == rest;
  }

  /** No logger that would write something comes after one whose text holds a
      terminator. */
  ghost predicate NothingHidden(all: seq<LogState>) {
    forall i, j :: 0 <= i < j < |all| && NUL in all[i].message ==> CStr(all[j].message) == ""
  }

  lemma {:induction false} WritesNothing(all: seq<LogState>)
    ensures AllText(all) == "" <==> forall j :: 0 <= j < |all| ==> CStr(all[j].message) == ""
  {
    if all != [] {
      WritesNothing(all[1..]);
      assert forall j :: 0 < j < |all| ==> all[j] == all[1..][j - 1];
      assert forall j :: 0 <= j < |all| - 1 ==> all[1..][j] == all[j + 1];
    }
  }

  lemma {:induction false} SeenTogether(all: seq<LogState>)
    ensures CStr(AllMessages(all)) == AllText(all) <==> NothingHidden(all)
  {
    if all != [] {
      var rest := all[1..];
      CStrAppend(all[0].message, AllMessages(rest));
      CStrWhole(all[0].message);
      SeenTogether(rest);
      WritesNothing(rest);
      HiddenCons(all);
      if NUL in all[0].message && CStr(AllMessages(all)) == AllText(all) {
        assert |AllText(all)| == |CStr(all[0].message)| + |AllText(rest)|;
      }
      if NUL !in all[0].message {
        SameTail(all[0].message, CStr(AllMessages(rest)), AllText(rest));
      }
    }
  }

  lemma SameTail(p: string, x: string, y: string)
    ensures p + x == p + y <==> x == y
  {
    assert (p + x)[|p|..] == x && (p + y)[|p|..] == y;
  }

  lemma {:induction false} CStrWhole(s: string)
    ensures NUL !in s ==> CStr(s) == s
  {
    if s != "" {
      CStrWhole(s[1..]);
    }
  }

  lemma HiddenCons(all: seq<LogState>)
    requires all != []
    ensures NothingHidden(all) <==>
              NothingHidden(all[1..])
              && (NUL in all[0].message ==> forall j :: 0 <= j < |all[1..]| ==> CStr(all[1..][j].message) == "")
  {
    assert forall j :: 0 < j < |all| ==> all[j] == all[1..][j - 1];
    assert forall j :: 0 <= j < |all| - 1 ==> all[1..][j] == all[j + 1];
  }

  /** What a group writes after any merges is what its loggers would have written by
      themselves, in order, exactly when none with something to write comes after one
      whose text holds a terminator. */
  lemma MergeWritesAll(group: LogState, sources: seq<LogState>)
    ensures EmittedText(Emitted(MergedAll(group, sources))) == AllText([group] + sources)
       <==> NothingHidden([group] + sources)
  {
    MergeKeepsText(group, sources);
    SeenTogether([group] + sources);
  }

  // How a terminator gets into a message.

  ghost predicate NoNulIn(args: seq<Arg>) {
    forall k :: 0 <= k < |args| && args[k].Text? ==> NUL !in args[k].text
  }

  lemma PieceNul(d: Directive, args: seq<Arg>, count: nat)
    requires NoNulIn(args)
    ensures NUL in Piece(ToLogger, d, args, count) <==> d == Literal(NUL) || d == Bad(NUL)
  {
    if d.TakesArg() {
      StringCast.TextHasNoNul(ArgIndex(d, count), 10, true);
    }
  }

  lemma HeadNul(f: string)
    requires f != "" && NUL !in f
    ensures Head(f) != Literal(NUL)
    ensures Head(f) == Bad(NUL) <==> f == "%"
  {
    assert f[0] in f && (1 < |f| ==> f[1] in f);
  }

  lemma RenderNulStep(d: Directive, rest: seq<Directive>, args: seq<Arg>, count: nat)
    requires NoNulIn(args)
    ensures NUL in Render(ToLogger, [d] + rest, args, count)
       <==> d == Literal(NUL) || d == Bad(NUL) || NUL in Render(ToLogger, rest, args, Advance(d, count))
  {
    RenderStep(ToLogger, d, rest, args, count);
    PieceNul(d, args, count);
  }

  lemma {:induction false} FormattedNul(f: string, args: seq<Arg>, count: nat)
    requires NUL !in f && NoNulIn(args)
    ensures NUL in Render(ToLogger, Parse(f), args, count) <==> TrailingPercents(f) % 2 == 1
    decreases |f|
  {
    if f != "" {
      var d, rest := Head(f), f[Width(f)..];
      FormattedNul(rest, args, Advance(d, count));
      RenderNulStep(d, Parse(rest), args, count);
      HeadNul(f);
      TrailingStep(f, rest);
    }
  }

  lemma TrailingStep(f: string, rest: string)
    requires f != "" && rest == f[Width(f)..]
    ensures TrailingPercents(f) % 2 == 1 <==> f == "%" || TrailingPercents(rest) % 2 == 1
  {
    if f != "%" {
      TrailingPercentsStep(f);
    }
  }

  /** With texts that hold no terminator, formatting puts one into a message exactly
      when the format ends in an odd number of percent signs: the complaint about the
      last one quotes the terminator. */
  lemma FormatHidesLater(s: LogState, f: string, args: seq<Arg>)
    requires NUL !in f && NoNulIn(args)
    ensures NUL in Formatted(s, f, args).message <==> NUL in s.message || TrailingPercents(f) % 2 == 1
  {
    FormattedNul(f, args, 0);
  }

  /** A logger with the format "%" and then one with any text: by itself the second
      would be written, merged into the same group it is not. */
  lemma LaterTextLost(level: nat, args: seq<Arg>, later: LogState, group: LogState) returns (first: LogState)
    requires CStr(later.message) != "" && group.message == ""
    ensures first == Formatted(LogState(level, false, None, ""), "%", args)
    ensures EmittedText(Emitted(MergedAll(group, [first, later]))) == EmittedText(Emitted(first))
    ensures EmittedText(Emitted(later)) != ""
  {
    first := LonePercent(level, args);
    MergeKeepsText(group, [first, later]);
    TwoMessages(group, first, later);
    CStrAppend(first.message, later.message);
  }

  lemma LonePercent(level: nat, args: seq<Arg>) returns (first: LogState)
    ensures first == Formatted(LogState(level, false, None, ""), "%", args)
    ensures NUL in first.message
  {
    first := Formatted(LogState(level, false, None, ""), "%", args);
    assert Parse("%") == [Bad(NUL)] + [];
    RenderStep(ToLogger, Bad(NUL), [], args, 0);
    assert NUL in Piece(ToLogger, Bad(NUL), args, 0);
  }

  lemma TwoMessages(group: LogState, first: LogState, later: LogState)
    requires group.message == ""
    ensures AllMessages([group] + [first, later]) == first.message + later.message
  {
    MessagesCons(group, [first, later]);
    assert [first, later] == [first] + ([later] + []);
    MessagesCons(first, [later] + []);
    MessagesCons(later, []);
  }

  /** `s` decides the level and the assertion of the group [group] + sources: it is
      the first one that reaches the highest level. */
  ghost predicate FirstAtTop(all: seq<LogState>, k: nat) {
    && k < |all|
    && (forall j :: 0 <= j < |all| ==> all[j].level <= all[k].level)
    && (forall j :: 0 <= j < k ==> all[j].level < all[k].level)
  }

  /** Where the highest level is first reached does not change when the first two
      loggers are replaced by their merge. */
  lemma FirstAtTopMerge(group: LogState, source: LogState, rest: seq<LogState>, k': nat) returns (k: nat)
    requires FirstAtTop([Merged(group, source)] + rest, k')
    ensures FirstAtTop([group] + ([source] + rest), k)
    ensures var winner, winner' := ([group] + ([source] + rest))[k], ([Merged(group, source)] + rest)[k'];
            winner.(message := winner'.message) == winner'
  {
    var all, all' := [group] + ([source] + rest), [Merged(group, source)] + rest;
    k := if k' > 0 then k' + 1 else if group.level < source.level then 1 else 0;
    assert forall j :: 2 <= j < |all| ==> all[j] == all'[j - 1];
    assert all'[0].level <= all'[k'].level;
  }

  /** Merging any sources into a group: the text is kept in order and every source
      is left with nothing to write, the level is the highest, and the assertion is
      that of the first logger, the group included, at that level. */
  lemma {:induction false} MergeConserves(group: LogState, sources: seq<LogState>) returns (k: nat)
    ensures MergedAll(group, sources).message == AllMessages([group] + sources)
    ensures forall s :: s in sources ==> Emitted(Drained(s)) == Nothing
    ensures FirstAtTop([group] + sources, k)
    ensures var winner := ([group] + sources)[k];
            MergedAll(group, sources).(message := winner.message) == winner
    decreases |sources|
  {
    MergeKeepsText(group, sources);
    if sources == [] {
      k := 0;
    } else {
      var merged := Merged(group, sources[0]);
      var k' := MergeConserves(merged, sources[1..]);
      k := FirstAtTopMerge(group, sources[0], sources[1..], k');
      assert sources == [sources[0]] + sources[1..];
    }
  }

  /** What a group hands over after any merges: an assertion exactly when the first
      logger at the highest level was asserted, with that logger's expression, and else
      a plain line; at the highest level, with what is seen of all the texts in order. */
  lemma MergeEmits(group: LogState, sources: seq<LogState>) returns (k: nat)
    ensures FirstAtTop([group] + sources, k)
    ensures var first, texts := ([group] + sources)[k], AllMessages([group] + sources);
            Emitted(MergedAll(group, sources)) ==
            if first.isAssert then AssertLog(first.level, first.exp, CStr(texts))
            else if texts == "" then Nothing
            else Write(first.level, CStr(texts))
  {
    k := MergeConserves(group, sources);
  }

  /** The life of an ordinary logger: its text is written as a plain line at its level. */
  method LogLine(level: nat, text: string) returns (e: Emission)
    requires text != "" && NUL !in text
    ensures e == Write(level, text)
  {
    var x := new XLogger(level);
    FormatsToItself(text);
    x.Format(Some(Escape(text)), []);
    e := x.Destroy(None);
  }

  /** The life of an asserted one: an assertion with its expression, even without text. */
  method LogAssertion(level: nat, exp: Option<string>, text: string) returns (e: Emission)
    requires NUL !in text
    ensures e == AssertLog(level, exp, text)
  {
    var x := new XLogger(level);
    x.Assert(exp);
    FormatsToItself(text);
    x.Format(Some(Escape(text)), []);
    e := x.Destroy(None);
  }

  lemma FormatsToItself(text: string)
    requires NUL !in text
    ensures NUL !in Escape(text) && IndicesOk(Parse(Escape(text)), Padded([]), 0)
    ensures forall s: LogState :: s.message == "" ==> Formatted(s, Escape(text), Padded([])) == s.(message := text)
    ensures CStr(text) == text
  {
    EscapeHasNoNul(text);
    EscapeUndone(ToLogger, text, Padded([]));
    CStrWhole(text);
    assert "" + text == text;
  }
}
