/** The argument parser of `session mutate`: an ordered list of claim deltas and one statement
    of how to treat concurrent changes. */
module Cli {
  import opened ResourceClaims
  import opened Wrappers

  datatype UsageError = InvalidArgument | MissingArgument

  datatype ArgDelta = UpsertArg(resource: string, mode: Mode) | ReleaseArg(resource: string)

  datatype Mutation = Mutation(
    sessionId: Option<string>, repository: Option<string>, deltas: seq<ArgDelta>, generation: Option<nat>, force: bool)

  /** The parser's variables; `pending` is a resource that waits for its mode. */
  datatype State = State(
    sessionId: Option<string>, repository: Option<string>, deltas: seq<ArgDelta>,
    pending: Option<string>, generation: Option<nat>, force: bool)

  datatype OptionName =
    | UpsertResource | ModeOption | ReleaseResource | SessionOption | RepositoryOption | IfGeneration | ForceOption
  {
    function Text(): string {
      match this
      case UpsertResource => "--upsert-resource"
      case ModeOption => "--mode"
      case ReleaseResource => "--release-resource"
      case SessionOption => "--session"
      case RepositoryOption => "--repository"
      case IfGeneration => "--if-generation"
      case ForceOption => "--force"
    }

    predicate IsConcurrency() {
      IfGeneration? || ForceOption?
    }
  }

  /** The options the command recognizes. */
  function Recognize(name: string): (o: Option<OptionName>)
    ensures o.Some? ==> o.value.Text() == name
  {
    if name == "--upsert-resource" then Some(UpsertResource)
    else if name == "--mode" then Some(ModeOption)
    else if name == "--release-resource" then Some(ReleaseResource)
    else if name == "--session" then Some(SessionOption)
    else if name == "--repository" then Some(RepositoryOption)
    else if name == "--if-generation" then Some(IfGeneration)
    else if name == "--force" then Some(ForceOption)
    else None
  }

  // ----- Pieces of text

  function IndexOf(s: string, c: char): (i: nat)
    ensures i <= |s| && c !in s[..i] && (i < |s| ==> s[i] == c)
  {
    if s == "" || s[0] == c then 0
    else
      var rest := IndexOf(s[1..], c);
      assert s[..rest + 1] == [s[0]] + s[1..][..rest];
      rest + 1
  }

  /** `optionParts`: the text before the first `=`, and the text after it if there is one. */
  function OptionParts(argument: string): (string, Option<string>) {
    var i := IndexOf(argument, '=');
    if i == |argument| then (argument, None) else (argument[..i], Some(argument[i + 1..]))
  }

  predicate StartsWithDash(s: string) {
    s != "" && s[0] == '-'
  }

  predicate AllDigits(s: string) {
    s != "" && forall k :: 0 <= k < |s| ==> '0' <= s[k] <= '9'
  }

  function ParseNumber(s: string): nat
    requires forall k :: 0 <= k < |s| ==> '0' <= s[k] <= '9'
  {
    if s == "" then 0 else 10 * ParseNumber(s[..|s| - 1]) + (s[|s| - 1] - '0') as int
  }

  function ParseMode(s: string): Option<Mode> {
    if s == "read" then Some(Read)
    else if s == "write" then Some(Write)
    else if s == "exclusive-write" then Some(ExclusiveWrite)
    else None
  }

  // ----- One option

  datatype Stepped = Stepped(state: State, taken: nat)

  /** The value of an option: inline, or the next argument if that does not look like an option. */
  function ValueOf(inlineValue: Option<string>, next: Option<string>): Option<string> {
    match inlineValue
    case Some(v) => if v == "" then None else Some(v)
    case None => if next == None || next.value == "" || StartsWithDash(next.value) then None else next
  }

  /** `consumeClaimConcurrencyOption`. */
  function ConsumeConcurrency(
    name: OptionName, inlineValue: Option<string>, next: Option<string>, st: State): (r: Result<Stepped, UsageError>)
    requires name.IsConcurrency()
    ensures r.Ok? ==> 1 <= r.value.taken <= (if next == None then 1 else 2)
  {
    if name == ForceOption then
      if inlineValue.Some? || st.force then Err(InvalidArgument) else Ok(Stepped(st.(force := true), 1))
    else
      var value := if inlineValue.Some? then inlineValue else next;
      var negative := value.Some? && StartsWithDash(value.value) && AllDigits(value.value[1..]);
      if value == None || value.value == "" || (inlineValue == None && StartsWithDash(value.value) && !negative) then
        Err(MissingArgument)
      else if st.generation.Some? then Err(InvalidArgument)
      else if !AllDigits(value.value) then Err(InvalidArgument)
      else if ParseNumber(value.value) > MAX_SAFE_INTEGER then Err(InvalidArgument)
      else Ok(Stepped(st.(generation := Some(ParseNumber(value.value))), if inlineValue == None then 2 else 1))
  }

  /** What a value option does once its value is known. */
  function ApplyValue(name: OptionName, value: string, st: State): Result<State, UsageError>
    requires !name.IsConcurrency()
  {
    match name
    case SessionOption => if st.sessionId.Some? then Err(InvalidArgument) else Ok(st.(sessionId := Some(value)))
    case RepositoryOption => Ok(st.(repository := Some(value)))
    case UpsertResource => Ok(st.(pending := Some(value)))
    case ReleaseResource => Ok(st.(deltas := st.deltas + [ReleaseArg(value)]))
    case ModeOption =>
      match st.pending
      case None => Err(InvalidArgument)
      case Some(resource) =>
        match ParseMode(value)
        case None => Err(InvalidArgument)
        case Some(mode) => Ok(st.(deltas := st.deltas + [UpsertArg(resource, mode)], pending := None))
  }

  /** One turn of the loop: an option that is recognized, and not out of place. */
  function StepNamed(name: Option<OptionName>, inlineValue: Option<string>, next: Option<string>, st: State)
    : (r: Result<Stepped, UsageError>)
    ensures r.Ok? ==> 1 <= r.value.taken <= (if next == None then 1 else 2)
  {
    if name == None then Err(InvalidArgument)
    else if st.pending.Some? && name.value != ModeOption then Err(InvalidArgument)
    else if name.value.IsConcurrency() then ConsumeConcurrency(name.value, inlineValue, next, st)
    else
      match ValueOf(inlineValue, next)
      case None => Err(MissingArgument)
      case Some(value) =>
        match ApplyValue(name.value, value, st)
        case Err(e) => Err(e)
        case Ok(s) => Ok(Stepped(s, if inlineValue == None then 2 else 1))
  }

  function Step(argument: string, next: Option<string>, st: State): (r: Result<Stepped, UsageError>)
    ensures r.Ok? ==> 1 <= r.value.taken <= (if next == None then 1 else 2)
  {
    var (text, inlineValue) := OptionParts(argument);
    StepNamed(Recognize(text), inlineValue, next, st)
  }

  function Next(args: seq<string>): Option<string> {
    if |args| < 2 then None else Some(args[1])
  }

  /** The loop over the arguments. */
  function Consume(args: seq<string>, st: State): Result<State, UsageError>
    decreases |args|
  {
    if args == [] then Ok(st)
    else
      match Step(args[0], Next(args), st)
      case Err(e) => Err(e)
      case Ok(s) => Consume(args[s.taken..], s.state)
  }

  function Finish(st: State): Result<Mutation, UsageError> {
    if st.pending.Some? then Err(MissingArgument)
    else if st.deltas == [] then Err(MissingArgument)
    else if st.force && st.generation.Some? then Err(InvalidArgument)
    else if !st.force && st.generation == None then Err(MissingArgument)
    else Ok(Mutation(st.sessionId, st.repository, st.deltas, st.generation, st.force))
  }

  /** `splitPositionalSessionTarget`. */
  function SplitTarget(args: seq<string>): (Option<string>, seq<string>) {
    if args == [] || StartsWithDash(args[0]) then (None, args) else (Some(args[0]), args[1..])
  }

  function Initial(sessionId: Option<string>): State {
    State(sessionId, None, [], None, None, false)
  }

  function ParseMutation(args: seq<string>): Result<Mutation, UsageError> {
    var (sessionId, rest) := SplitTarget(args);
    match Consume(rest, Initial(sessionId))
    case Err(e) => Err(e)
    case Ok(st) => Finish(st)
  }

  /** One turn of the loop leads to the same outcome from the arguments it leaves. */
  lemma TurnOfTheLoop(target: seq<string>, index: nat, st: State)
    requires index < |target|
    ensures var next := if index + 1 < |target| then Some(target[index + 1]) else None;
      Consume(target[index..], st) ==
        match Step(target[index], next, st)
        case Err(e) => Err(e)
        case Ok(s) => Consume(target[index + s.taken..], s.state)
  {
    var next := if index + 1 < |target| then Some(target[index + 1]) else None;
    var rest := target[index..];
    assert rest[0] == target[index] && Next(rest) == next;
    assert rest[1..] == target[index + 1..] && (index + 1 < |target| ==> rest[2..] == target[index + 2..]);
  }

  /** `parseClaimDeltaMutation`; its variables are the fields of `st`. */
  method ParseClaimDeltaMutation(args: seq<string>) returns (r: Result<Mutation, UsageError>)
    ensures r == ParseMutation(args)
  {
    var (sessionId, target) := SplitTarget(args);
    var st := Initial(sessionId);
    ghost var outcome := Consume(target, st);
    assert target[0..] == target;
    var index := 0;
    while index < |target|
      invariant 0 <= index <= |target|
      invariant Consume(target[index..], st) == outcome
    {
      TurnOfTheLoop(target, index, st);
      var next := if index + 1 < |target| then Some(target[index + 1]) else None;
      var (text, inlineValue) := OptionParts(target[index]);
      var name := Recognize(text);
      if name == None { return Err(InvalidArgument); }
      if st.pending.Some? && name.value != ModeOption { return Err(InvalidArgument); }
      if name.value.IsConcurrency() {
        var consumed := ConsumeConcurrency(name.value, inlineValue, next, st);
        if consumed.Err? { return Err(consumed.error); }
        st := consumed.value.state;
        index := index + consumed.value.taken;
        continue;
      }
      var value := ValueOf(inlineValue, next);
      if value == None { return Err(MissingArgument); }
      index := index + if inlineValue == None then 2 else 1;
      var applied := ApplyValue(name.value, value.value, st);
      if applied.Err? { return Err(applied.error); }
      st := applied.value;
    }
    return Finish(st);
  }
}
