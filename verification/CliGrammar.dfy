/** The language the argument parser accepts, and the round trip through it. */
module CliGrammar {
  import opened Cli
  import opened Identities
  import opened ResourceClaims
  import opened Wrappers

  // ----- The language

  datatype Item =
    | UpsertItem(resource: string, mode: Mode)
    | ReleaseItem(resource: string)
    | SessionItem(id: string)
    | RepositoryItem(id: string)
    | GenerationItem(digits: string)
    | ForceItem

  /** `--name=value`, or `--name value` if the value does not look like an option. */
  predicate SpellsValue(args: seq<string>, name: OptionName, value: string) {
    value != "" &&
    (args == [name.Text() + "=" + value] || (!StartsWithDash(value) && args == [name.Text(), value]))
  }

  predicate SpellsUpsert(args: seq<string>, k: nat, resource: string, mode: Mode) {
    k <= |args| && SpellsValue(args[..k], UpsertResource, resource) && SpellsValue(args[k..], ModeOption, mode.Name())
  }

  predicate SpellsItem(args: seq<string>, item: Item) {
    match item
    case UpsertItem(resource, mode) => exists k :: 0 <= k <= |args| && SpellsUpsert(args, k, resource, mode)
    case ReleaseItem(resource) => SpellsValue(args, ReleaseResource, resource)
    case SessionItem(id) => SpellsValue(args, SessionOption, id)
    case RepositoryItem(id) => SpellsValue(args, RepositoryOption, id)
    case GenerationItem(digits) =>
      AllDigits(digits) && ParseNumber(digits) <= MAX_SAFE_INTEGER && SpellsValue(args, IfGeneration, digits)
    case ForceItem => args == ["--force"]
  }

  predicate SplitsAt(args: seq<string>, items: seq<Item>, n: nat)
    requires items != []
    decreases |items|, 0
  {
    n <= |args| && SpellsItem(args[..n], items[0]) && Spelled(args[n..], items[1..])
  }

  /** The arguments are spellings of the items, one after the other. */
  predicate Spelled(args: seq<string>, items: seq<Item>)
    decreases |items|, 1
  {
    if items == [] then args == [] else exists n :: 0 <= n <= |args| && SplitsAt(args, items, n)
  }

  /** What a list of items contains, family by family, each in order. */
  datatype Tally = Tally(
    deltas: seq<ArgDelta>, sessions: seq<string>, repositories: seq<string>, generations: seq<string>, forces: nat)

  const NOTHING := Tally([], [], [], [], 0)

  function TallyItem(item: Item): Tally {
    match item
    case UpsertItem(resource, mode) => NOTHING.(deltas := [UpsertArg(resource, mode)])
    case ReleaseItem(resource) => NOTHING.(deltas := [ReleaseArg(resource)])
    case SessionItem(id) => NOTHING.(sessions := [id])
    case RepositoryItem(id) => NOTHING.(repositories := [id])
    case GenerationItem(digits) => NOTHING.(generations := [digits])
    case ForceItem => NOTHING.(forces := 1)
  }

  function Plus(a: Tally, b: Tally): Tally {
    Tally(a.deltas + b.deltas, a.sessions + b.sessions, a.repositories + b.repositories,
          a.generations + b.generations, a.forces + b.forces)
  }

  function TallyOf(items: seq<Item>): Tally {
    if items == [] then NOTHING else Plus(TallyItem(items[0]), TallyOf(items[1..]))
  }

  function Last(values: seq<string>, otherwise: Option<string>): Option<string> {
    if values == [] then otherwise else Some(values[|values| - 1])
  }

  function First(values: seq<string>): Option<string> {
    if values == [] then None else Some(values[0])
  }

  /** What a list of items asks for: its deltas in order, at most one target, and exactly one of
      the two ways to treat concurrent changes. */
  predicate Describes(items: seq<Item>, target: Option<string>, m: Mutation) {
    var t := TallyOf(items);
    && m.deltas == t.deltas != []
    && |t.sessions| <= (if target.Some? then 0 else 1)
    && m.sessionId == (if target.Some? then target else First(t.sessions))
    && m.repository == Last(t.repositories, None)
    && if m.force then t.forces == 1 && t.generations == [] && m.generation == None
       else t.forces == 0 && |t.generations| == 1 && AllDigits(t.generations[0])
            && m.generation == Some(ParseNumber(t.generations[0]))
  }

  // ----- Items as steps of the parser

  function ApplyItem(st: State, item: Item): Option<State> {
    match item
    case UpsertItem(resource, mode) => Some(st.(deltas := st.deltas + [UpsertArg(resource, mode)]))
    case ReleaseItem(resource) => Some(st.(deltas := st.deltas + [ReleaseArg(resource)]))
    case SessionItem(id) => if st.sessionId.Some? then None else Some(st.(sessionId := Some(id)))
    case RepositoryItem(id) => Some(st.(repository := Some(id)))
    case GenerationItem(digits) =>
      if st.generation.Some? || !AllDigits(digits) then None else Some(st.(generation := Some(ParseNumber(digits))))
    case ForceItem => if st.force then None else Some(st.(force := true))
  }

  function ApplyItems(st: State, items: seq<Item>): Option<State>
    decreases |items|
  {
    if items == [] then Some(st)
    else
      match ApplyItem(st, items[0])
      case None => None
      case Some(s) => ApplyItems(s, items[1..])
  }

  lemma {:induction false} IndexIs(s: string, c: char, i: nat)
    requires i < |s| && s[i] == c && c !in s[..i]
    ensures IndexOf(s, c) == i
  {
    if i > 0 {
      assert s[..i][0] == s[0];
      assert s[1..][..i - 1] == s[..i][1..];
      IndexIs(s[1..], c, i - 1);
    }
  }

  lemma NoIndex(s: string, c: char)
    requires c !in s
    ensures IndexOf(s, c) == |s|
  {
  }

  lemma NamesHaveNoEquals(name: OptionName)
    ensures '=' !in name.Text() && Recognize(name.Text()) == Some(name)
  {
  }

  lemma PartsOfInline(name: OptionName, value: string)
    ensures OptionParts(name.Text() + "=" + value) == (name.Text(), Some(value)) && Recognize(name.Text()) == Some(name)
    ensures OptionParts(name.Text()) == (name.Text(), None)
  {
    NamesHaveNoEquals(name);
    SplitAtEquals(name.Text(), value);
  }

  lemma SplitAtEquals(text: string, value: string)
    requires '=' !in text
    ensures OptionParts(text + "=" + value) == (text, Some(value)) && OptionParts(text) == (text, None)
  {
    var argument := text + "=" + value;
    assert argument[..|text|] == text && argument[|text| + 1..] == value;
    IndexIs(argument, '=', |text|);
    NoIndex(text, '=');
  }

  /** Where the parts came from. */
  lemma PartsRejoin(argument: string)
    ensures var (text, inlineValue) := OptionParts(argument);
      argument == if inlineValue == None then text else text + "=" + inlineValue.value
  {
  }

  /** A spelled value option is one turn of the loop. */
  lemma SpelledStep(a: seq<string>, rest: seq<string>, name: OptionName, value: string, st: State)
    requires SpellsValue(a, name, value) && !name.IsConcurrency() && (st.pending == None || name == ModeOption)
    requires ApplyValue(name, value, st).Ok?
    ensures Consume(a + rest, st) == Consume(rest, ApplyValue(name, value, st).value)
  {
    PartsOfInline(name, value);
    var args := a + rest;
    if a == [name.Text() + "=" + value] {
      assert args[1..] == rest;
    } else {
      assert Next(args) == Some(value) && args[2..] == rest;
    }
  }

  lemma ModeNames(mode: Mode)
    ensures ParseMode(mode.Name()) == Some(mode) && mode.Name() != ""
  {
  }

  lemma DigitsAreNoOption(s: string)
    requires AllDigits(s)
    ensures !StartsWithDash(s)
  {
  }

  lemma SpelledGeneration(a: seq<string>, rest: seq<string>, digits: string, st: State)
    requires SpellsItem(a, GenerationItem(digits)) && st.pending == None && st.generation == None
    ensures Consume(a + rest, st) == Consume(rest, st.(generation := Some(ParseNumber(digits))))
  {
    PartsOfInline(IfGeneration, digits);
    DigitsAreNoOption(digits);
    var args := a + rest;
    var done := st.(generation := Some(ParseNumber(digits)));
    if a == [IfGeneration.Text() + "=" + digits] {
      assert Consume(args, st) == Consume(rest, done) by { assert args[1..] == rest; }
    } else {
      assert Consume(args, st) == Consume(rest, done) by { assert Next(args) == Some(digits) && args[2..] == rest; }
    }
  }

  lemma SpelledUpsert(a: seq<string>, b: seq<string>, rest: seq<string>, resource: string, mode: Mode, st: State)
    requires SpellsValue(a, UpsertResource, resource) && SpellsValue(b, ModeOption, mode.Name()) && st.pending == None
    ensures Consume(a + (b + rest), st) == Consume(rest, st.(deltas := st.deltas + [UpsertArg(resource, mode)]))
  {
    var waiting := st.(pending := Some(resource));
    var done := st.(deltas := st.deltas + [UpsertArg(resource, mode)]);
    assert ApplyValue(UpsertResource, resource, st) == Ok(waiting);
    assert ApplyValue(ModeOption, mode.Name(), waiting) == Ok(done) by { ModeNames(mode); }
    assert Consume(a + (b + rest), st) == Consume(b + rest, waiting) by {
      SpelledStep(a, b + rest, UpsertResource, resource, st);
    }
    assert Consume(b + rest, waiting) == Consume(rest, done) by {
      SpelledStep(b, rest, ModeOption, mode.Name(), waiting);
    }
  }

  lemma SpelledForce(rest: seq<string>, st: State)
    requires st.pending == None && !st.force
    ensures Consume(["--force"] + rest, st) == Consume(rest, st.(force := true))
  {
    PartsOfInline(ForceOption, "");
    assert (["--force"] + rest)[1..] == rest;
  }

  lemma SpelledUpsertItem(a: seq<string>, rest: seq<string>, item: Item, st: State)
    requires item.UpsertItem? && SpellsItem(a, item) && st.pending == None
    ensures Consume(a + rest, st) == Consume(rest, ApplyItem(st, item).value)
  {
    var k :| 0 <= k <= |a| && SpellsUpsert(a, k, item.resource, item.mode);
    assert a + rest == a[..k] + (a[k..] + rest);
    SpelledUpsert(a[..k], a[k..], rest, item.resource, item.mode, st);
  }

  lemma SpelledPlain(a: seq<string>, rest: seq<string>, item: Item, st: State)
    requires item.ReleaseItem? || item.SessionItem? || item.RepositoryItem?
    requires SpellsItem(a, item) && st.pending == None && ApplyItem(st, item).Some?
    ensures Consume(a + rest, st) == Consume(rest, ApplyItem(st, item).value)
  {
    match item
    case ReleaseItem(resource) => SpelledStep(a, rest, ReleaseResource, resource, st);
    case SessionItem(id) => SpelledStep(a, rest, SessionOption, id, st);
    case RepositoryItem(id) => SpelledStep(a, rest, RepositoryOption, id, st);
  }

  /** A spelled item takes the parser from one state to the next. */
  lemma SpelledItem(a: seq<string>, rest: seq<string>, item: Item, st: State)
    requires SpellsItem(a, item) && st.pending == None && ApplyItem(st, item).Some?
    ensures Consume(a + rest, st) == Consume(rest, ApplyItem(st, item).value)
  {
    match item
    case UpsertItem(_, _) => SpelledUpsertItem(a, rest, item, st);
    case GenerationItem(digits) => SpelledGeneration(a, rest, digits, st);
    case ForceItem => SpelledForce(rest, st);
    case _ => SpelledPlain(a, rest, item, st);
  }

  lemma ItemsKeepNothingPending(st: State, item: Item)
    requires ApplyItem(st, item).Some?
    ensures ApplyItem(st, item).value.pending == st.pending
  {
  }

  lemma SpelledFirst(args: seq<string>, items: seq<Item>, n: nat, st: State)
    requires items != [] && SplitsAt(args, items, n) && st.pending == None && ApplyItem(st, items[0]).Some?
    ensures n <= |args| && Spelled(args[n..], items[1..]) && ApplyItem(st, items[0]).value.pending == None
    ensures Consume(args, st) == Consume(args[n..], ApplyItem(st, items[0]).value)
  {
    ItemsKeepNothingPending(st, items[0]);
    SpelledItem(args[..n], args[n..], items[0], st);
    assert args == args[..n] + args[n..];
  }

  /** Every spelling is accepted as what it spells. */
  lemma {:induction false} SpellingsAreConsumed(args: seq<string>, items: seq<Item>, st: State)
    requires Spelled(args, items) && st.pending == None && ApplyItems(st, items).Some?
    ensures Consume(args, st) == Ok(ApplyItems(st, items).value)
    decreases |items|
  {
    if items != [] {
      var n :| 0 <= n <= |args| && SplitsAt(args, items, n);
      SpelledFirst(args, items, n, st);
      SpellingsAreConsumed(args[n..], items[1..], ApplyItem(st, items[0]).value);
    }
  }

  /** An accepted turn with a value option read a spelling of it. */
  lemma StepReadsValue(args: seq<string>, st: State) returns (name: OptionName, value: string)
    requires args != [] && Step(args[0], Next(args), st).Ok?
    requires Recognize(OptionParts(args[0]).0).Some? && !Recognize(OptionParts(args[0]).0).value.IsConcurrency()
    ensures var s := Step(args[0], Next(args), st).value;
      && s.taken <= |args| && SpellsValue(args[..s.taken], name, value) && !name.IsConcurrency()
      && ApplyValue(name, value, st) == Ok(s.state) && (st.pending == None || name == ModeOption)
  {
    PartsRejoin(args[0]);
    var (text, inlineValue) := OptionParts(args[0]);
    name := Recognize(text).value;
    value := ValueOf(inlineValue, Next(args)).value;
    if inlineValue.Some? {
      assert args[..1] == [name.Text() + "=" + value];
    } else {
      assert args[..2] == [name.Text(), value];
    }
  }

  /** An accepted turn with a concurrency option read a spelling of one. */
  lemma StepReadsConcurrency(args: seq<string>, st: State) returns (item: Item)
    requires args != [] && Step(args[0], Next(args), st).Ok?
    requires Recognize(OptionParts(args[0]).0).Some? && Recognize(OptionParts(args[0]).0).value.IsConcurrency()
    ensures var s := Step(args[0], Next(args), st).value;
      s.taken <= |args| && SpellsItem(args[..s.taken], item) && ApplyItem(st, item) == Some(s.state)
        && st.pending == None
  {
    PartsRejoin(args[0]);
    var (text, inlineValue) := OptionParts(args[0]);
    var name := Recognize(text).value;
    if name == ForceOption {
      item := ForceItem;
      assert args[..1] == ["--force"];
    } else {
      var digits := if inlineValue.Some? then inlineValue.value else Next(args).value;
      item := GenerationItem(digits);
      DigitsAreNoOption(digits);
      if inlineValue.Some? {
        assert args[..1] == [name.Text() + "=" + digits];
      } else {
        assert args[..2] == [name.Text(), digits];
      }
    }
  }

  lemma ModeIsNamed(text: string)
    requires ParseMode(text).Some?
    ensures ParseMode(text).value.Name() == text
  {
  }

  /** The next item of an accepted argument list. */
  lemma ReadItem(args: seq<string>, st: State) returns (n: nat, item: Item)
    requires args != [] && st.pending == None
    requires Consume(args, st).Ok? && Consume(args, st).value.pending == None
    ensures 1 <= n <= |args| && SpellsItem(args[..n], item)
    ensures ApplyItem(st, item).Some? && Consume(args[n..], ApplyItem(st, item).value) == Consume(args, st)
  {
    var s := Step(args[0], Next(args), st).value;
    n := s.taken;
    if Recognize(OptionParts(args[0]).0).value.IsConcurrency() {
      item := StepReadsConcurrency(args, st);
      return;
    }
    var name, value := StepReadsValue(args, st);
    match name {
      case ReleaseResource => item := ReleaseItem(value);
      case SessionOption => item := SessionItem(value);
      case RepositoryOption => item := RepositoryItem(value);
      case UpsertResource => n, item := ReadMode(args, n, value, st);
    }
  }

  /** A pending resource is followed by its mode at once. */
  lemma ReadMode(args: seq<string>, k: nat, resource: string, st: State) returns (n: nat, item: Item)
    requires st.pending == None && 1 <= k <= |args| && SpellsValue(args[..k], UpsertResource, resource)
    requires Consume(args[k..], st.(pending := Some(resource))).Ok?
    requires Consume(args[k..], st.(pending := Some(resource))).value.pending == None
    ensures 1 <= n <= |args| && SpellsItem(args[..n], item) && ApplyItem(st, item).Some?
    ensures Consume(args[n..], ApplyItem(st, item).value) == Consume(args[k..], st.(pending := Some(resource)))
  {
    var rest, waiting := args[k..], st.(pending := Some(resource));
    assert rest != [];
    var s := Step(rest[0], Next(rest), waiting).value;
    var _, text := StepReadsValue(rest, waiting);
    ModeIsNamed(text);
    n, item := k + s.taken, UpsertItem(resource, ParseMode(text).value);
    assert args[..n][..k] == args[..k] && args[..n][k..] == rest[..s.taken] && args[n..] == rest[s.taken..];
    assert SpellsUpsert(args[..n], k, resource, item.mode);
  }

  /** Whatever is accepted is a spelling. */
  lemma {:induction false} ConsumedIsSpelled(args: seq<string>, st: State) returns (items: seq<Item>)
    requires st.pending == None && Consume(args, st).Ok? && Consume(args, st).value.pending == None
    ensures Spelled(args, items) && ApplyItems(st, items) == Some(Consume(args, st).value)
    decreases |args|
  {
    if args == [] {
      items := [];
    } else {
      var n, item := ReadItem(args, st);
      var rest := ConsumedIsSpelled(args[n..], ApplyItem(st, item).value);
      items := [item] + rest;
      assert items[1..] == rest;
      assert SplitsAt(args, items, n);
    }
  }

  // ----- What the items amount to

  predicate Amounts(st: State, t: Tally, f: State) {
    && |t.sessions| <= (if st.sessionId.Some? then 0 else 1)
    && |t.generations| <= (if st.generation.Some? then 0 else 1)
    && (t.generations != [] ==> AllDigits(t.generations[0]))
    && t.forces <= (if st.force then 0 else 1)
    && f.sessionId == (if st.sessionId.Some? then st.sessionId else First(t.sessions))
    && f.repository == Last(t.repositories, st.repository)
    && f.deltas == st.deltas + t.deltas
    && f.pending == st.pending
    && f.generation == (if t.generations == [] then st.generation else Some(ParseNumber(t.generations[0])))
    && f.force == (st.force || t.forces == 1)
  }

  lemma AmountsDelta(st: State, d: ArgDelta, t: Tally, f: State)
    ensures Amounts(st, Plus(NOTHING.(deltas := [d]), t), f) <==> Amounts(st.(deltas := st.deltas + [d]), t, f)
  {
    assert st.deltas + ([d] + t.deltas) == (st.deltas + [d]) + t.deltas;
    assert Plus(NOTHING.(deltas := [d]), t) == t.(deltas := [d] + t.deltas);
  }

  lemma AmountsSession(st: State, id: string, t: Tally, f: State)
    ensures Amounts(st, Plus(NOTHING.(sessions := [id]), t), f) <==>
      st.sessionId == None && Amounts(st.(sessionId := Some(id)), t, f)
  {
    assert Plus(NOTHING.(sessions := [id]), t) == t.(sessions := [id] + t.sessions);
  }

  lemma AmountsRepository(st: State, id: string, t: Tally, f: State)
    ensures Amounts(st, Plus(NOTHING.(repositories := [id]), t), f) <==> Amounts(st.(repository := Some(id)), t, f)
  {
    assert Plus(NOTHING.(repositories := [id]), t) == t.(repositories := [id] + t.repositories);
    assert Last([id] + t.repositories, st.repository) == Last(t.repositories, Some(id));
  }

  lemma AmountsGeneration(st: State, digits: string, t: Tally, f: State)
    ensures Amounts(st, Plus(NOTHING.(generations := [digits]), t), f) <==>
      st.generation == None && AllDigits(digits) && Amounts(st.(generation := Some(ParseNumber(digits))), t, f)
  {
    assert Plus(NOTHING.(generations := [digits]), t) == t.(generations := [digits] + t.generations);
  }

  lemma AmountsForce(st: State, t: Tally, f: State)
    ensures Amounts(st, Plus(NOTHING.(forces := 1), t), f) <==> !st.force && Amounts(st.(force := true), t, f)
  {
    assert Plus(NOTHING.(forces := 1), t) == t.(forces := 1 + t.forces);
  }

  /** One item more in front. */
  lemma AmountsStep(st: State, item: Item, t: Tally, f: State)
    ensures Amounts(st, Plus(TallyItem(item), t), f) <==>
      ApplyItem(st, item).Some? && Amounts(ApplyItem(st, item).value, t, f)
  {
    match item
    case UpsertItem(resource, mode) => AmountsDelta(st, UpsertArg(resource, mode), t, f);
    case ReleaseItem(resource) => AmountsDelta(st, ReleaseArg(resource), t, f);
    case SessionItem(id) => AmountsSession(st, id, t, f);
    case RepositoryItem(id) => AmountsRepository(st, id, t, f);
    case GenerationItem(digits) => AmountsGeneration(st, digits, t, f);
    case ForceItem => AmountsForce(st, t, f);
  }

  lemma {:induction false} ItemsAmount(st: State, items: seq<Item>, f: State)
    ensures ApplyItems(st, items) == Some(f) <==> Amounts(st, TallyOf(items), f)
    decreases |items|
  {
    if items == [] {
      assert st.deltas + [] == st.deltas;
    } else {
      AmountsStep(st, items[0], TallyOf(items[1..]), f);
      if ApplyItem(st, items[0]).Some? {
        ItemsAmount(ApplyItem(st, items[0]).value, items[1..], f);
      }
    }
  }

  ghost predicate Reads(args: seq<string>, items: seq<Item>, target: Option<string>, m: Mutation) {
    Spelled(args, items) && Describes(items, target, m)
  }

  /** The parser accepts exactly the spellings: an argument list is read as `m` if and only if it
      is, behind an optional positional target, a sequence of spelled items that describes `m`. In
      particular every upsert takes its mode from the option right behind it, the deltas keep
      their order, and exactly one of generation and force is present. */
  lemma AcceptedExactly(args: seq<string>, m: Mutation)
    ensures ParseMutation(args) == Ok(m) <==>
      var (target, rest) := SplitTarget(args); exists items :: Reads(rest, items, target, m)
  {
    var (target, rest) := SplitTarget(args);
    var st := Initial(target);
    if ParseMutation(args) == Ok(m) {
      var f := Consume(rest, st).value;
      var items := ConsumedIsSpelled(rest, st);
      ItemsAmount(st, items, f);
      assert Reads(rest, items, target, m);
    }
    if items :| Reads(rest, items, target, m) {
      var f := State(m.sessionId, m.repository, m.deltas, None, m.generation, m.force);
      ItemsAmount(st, items, f);
      SpellingsAreConsumed(rest, items, st);
    }
  }

  // ----- Printing and parsing back

  function Print(name: OptionName, value: string): string {
    name.Text() + "=" + value
  }

  function PrintDelta(d: ArgDelta): seq<string> {
    match d
    case UpsertArg(resource, mode) => [Print(UpsertResource, resource), Print(ModeOption, mode.Name())]
    case ReleaseArg(resource) => [Print(ReleaseResource, resource)]
  }

  function PrintDeltas(ds: seq<ArgDelta>): seq<string> {
    if ds == [] then [] else PrintDelta(ds[0]) + PrintDeltas(ds[1..])
  }

  /** The deltas and what follows them. */
  function PrintTail(m: Mutation): seq<string> {
    PrintDeltas(m.deltas)
    + (if m.force then ["--force"] else if m.generation.Some? then [Print(IfGeneration, Decimal(m.generation.value))]
      else [])
  }

  /** The canonical arguments of a mutation, every value in the `--name=value` form. */
  function PrintMutation(m: Mutation): seq<string> {
    (if m.sessionId.Some? then [Print(SessionOption, m.sessionId.value)] else [])
    + ((if m.repository.Some? then [Print(RepositoryOption, m.repository.value)] else []) + PrintTail(m))
  }

  /** What can be asked for at all: something to do, no empty name, one way to treat concurrent changes. */
  predicate Printable(m: Mutation) {
    && m.sessionId != Some("") && m.repository != Some("")
    && m.deltas != [] && (forall d :: d in m.deltas ==> d.resource != "")
    && (m.force <==> m.generation == None)
    && (m.generation.Some? ==> m.generation.value <= MAX_SAFE_INTEGER)
  }

  lemma {:induction false} NumberRoundTrip(n: nat)
    ensures AllDigits(Decimal(n)) && ParseNumber(Decimal(n)) == n
  {
    if n >= 10 {
      NumberRoundTrip(n / 10);
      assert Decimal(n)[..|Decimal(n)| - 1] == Decimal(n / 10);
    } else {
      assert Decimal(n)[..0] == "";
    }
  }

  function ItemOf(d: ArgDelta): Item {
    match d
    case UpsertArg(resource, mode) => UpsertItem(resource, mode)
    case ReleaseArg(resource) => ReleaseItem(resource)
  }

  lemma DeltaIsSpelled(d: ArgDelta)
    requires d.resource != ""
    ensures SpellsItem(PrintDelta(d), ItemOf(d)) && TallyItem(ItemOf(d)) == NOTHING.(deltas := [d])
  {
    if d.UpsertArg? {
      var args := PrintDelta(d);
      ModeNames(d.mode);
      assert args[..1] == [Print(UpsertResource, d.resource)] && args[1..] == [Print(ModeOption, d.mode.Name())];
      assert SpellsUpsert(args, 1, d.resource, d.mode);
    }
  }

  /** Putting one spelled item in front. */
  lemma SpelledInFront(a: seq<string>, item: Item, rest: seq<string>, items: seq<Item>)
    requires SpellsItem(a, item) && Spelled(rest, items)
    ensures Spelled(a + rest, [item] + items) && TallyOf([item] + items) == Plus(TallyItem(item), TallyOf(items))
  {
    var all := [item] + items;
    assert all[1..] == items && (a + rest)[..|a|] == a && (a + rest)[|a|..] == rest;
    assert SplitsAt(a + rest, all, |a|);
  }

  lemma PlusDelta(d: ArgDelta, t: Tally, ds: seq<ArgDelta>, before: seq<ArgDelta>)
    requires t.deltas == ds + before
    ensures Plus(NOTHING.(deltas := [d]), t) == t.(deltas := ([d] + ds) + before)
  {
    assert [d] + (ds + before) == ([d] + ds) + before;
  }

  lemma PrintedFirst(ds: seq<ArgDelta>, rest: seq<string>)
    requires ds != []
    ensures PrintDeltas(ds) + rest == PrintDelta(ds[0]) + (PrintDeltas(ds[1..]) + rest)
  {
  }

  lemma DeltasInFront(ds: seq<ArgDelta>, rest: seq<string>, tail: seq<Item>, after: Tally) returns (items: seq<Item>)
    requires ds != [] && ds[0].resource != "" && Spelled(PrintDeltas(ds[1..]) + rest, tail)
    requires TallyOf(tail) == after.(deltas := ds[1..] + after.deltas)
    ensures Spelled(PrintDeltas(ds) + rest, items) && TallyOf(items) == after.(deltas := ds + after.deltas)
  {
    items := [ItemOf(ds[0])] + tail;
    PrintedFirst(ds, rest);
    DeltaIsSpelled(ds[0]);
    SpelledInFront(PrintDelta(ds[0]), ItemOf(ds[0]), PrintDeltas(ds[1..]) + rest, tail);
    assert TallyOf(items) == after.(deltas := ds + after.deltas) by {
      PlusDelta(ds[0], TallyOf(tail), ds[1..], after.deltas);
      assert ds == [ds[0]] + ds[1..];
    }
  }

  lemma {:induction false} DeltasAreSpelled(ds: seq<ArgDelta>, rest: seq<string>, after: seq<Item>)
    returns (items: seq<Item>)
    requires (forall d :: d in ds ==> d.resource != "") && Spelled(rest, after)
    ensures Spelled(PrintDeltas(ds) + rest, items)
    ensures TallyOf(items) == TallyOf(after).(deltas := ds + TallyOf(after).deltas)
  {
    if ds == [] {
      items := after;
      assert PrintDeltas(ds) + rest == rest && ds + TallyOf(after).deltas == TallyOf(after).deltas;
    } else {
      var tail := DeltasAreSpelled(ds[1..], rest, after);
      items := DeltasInFront(ds, rest, tail, TallyOf(after));
    }
  }

  lemma ConcurrencyIsSpelled(m: Mutation) returns (args: seq<string>, items: seq<Item>)
    requires Printable(m)
    ensures args == if m.force then ["--force"] else [Print(IfGeneration, Decimal(m.generation.value))]
    ensures Spelled(args, items)
    ensures TallyOf(items) == if m.force then NOTHING.(forces := 1)
      else NOTHING.(generations := [Decimal(m.generation.value)])
  {
    var item: Item;
    if m.force {
      item, args := ForceItem, ["--force"];
    } else {
      NumberRoundTrip(m.generation.value);
      item, args := GenerationItem(Decimal(m.generation.value)), [Print(IfGeneration, Decimal(m.generation.value))];
    }
    SpelledInFront(args, item, [], []);
    items := [item];
    assert args + [] == args && [item] + [] == [item];
  }

  /** An optional item in front of a printed rest. */
  lemma MaybeInFront(value: Option<string>, isSession: bool, rest: seq<string>, after: seq<Item>)
    returns (args: seq<string>, items: seq<Item>)
    requires value != Some("") && Spelled(rest, after)
    ensures args == if value == None then []
      else [Print(if isSession then SessionOption else RepositoryOption, value.value)]
    ensures Spelled(args + rest, items)
    ensures TallyOf(items) ==
      if value == None then TallyOf(after)
      else if isSession then TallyOf(after).(sessions := [value.value] + TallyOf(after).sessions)
      else TallyOf(after).(repositories := [value.value] + TallyOf(after).repositories)
  {
    if value == None {
      args, items := [], after;
      assert args + rest == rest;
    } else {
      var item := if isSession then SessionItem(value.value) else RepositoryItem(value.value);
      args := [Print(if isSession then SessionOption else RepositoryOption, value.value)];
      SpelledInFront(args, item, rest, after);
      items := [item] + after;
    }
  }

  function OneOrNone(value: Option<string>): seq<string> {
    if value == None then [] else [value.value]
  }

  function PrintedTally(m: Mutation): Tally
    requires Printable(m)
  {
    Tally(m.deltas, OneOrNone(m.sessionId), OneOrNone(m.repository),
          if m.force then [] else [Decimal(m.generation.value)], if m.force then 1 else 0)
  }

  lemma TailIsSpelled(m: Mutation) returns (items: seq<Item>)
    requires Printable(m)
    ensures Spelled(PrintTail(m), items) && TallyOf(items) == PrintedTally(m).(sessions := [], repositories := [])
  {
    var c, last := ConcurrencyIsSpelled(m);
    items := DeltasAreSpelled(m.deltas, c, last);
    assert m.deltas + [] == m.deltas;
  }

  lemma PrintIsSpelled(m: Mutation) returns (items: seq<Item>)
    requires Printable(m)
    ensures Spelled(PrintMutation(m), items) && TallyOf(items) == PrintedTally(m)
  {
    var tail := PrintTail(m);
    var changes := TailIsSpelled(m);
    var r, located := MaybeInFront(m.repository, false, tail, changes);
    var s, whole := MaybeInFront(m.sessionId, true, r + tail, located);
    items := whole;
    assert OneOrNone(m.repository) + [] == OneOrNone(m.repository)
      && OneOrNone(m.sessionId) + [] == OneOrNone(m.sessionId);
  }

  lemma PrintedIsDescribed(m: Mutation, items: seq<Item>)
    requires Printable(m) && TallyOf(items) == PrintedTally(m)
    ensures Describes(items, None, m)
  {
    if m.generation.Some? { NumberRoundTrip(m.generation.value); }
  }

  /** Printing a mutation and parsing the arguments gives the mutation back, whatever `=` or
      leading `-` its values contain. */
  lemma RoundTrip(m: Mutation)
    requires Printable(m)
    ensures ParseMutation(PrintMutation(m)) == Ok(m)
  {
    var items := PrintIsSpelled(m);
    PrintedIsDescribed(m, items);
    StartsWithOption(m);
    assert Reads(PrintMutation(m), items, None, m);
    AcceptedExactly(PrintMutation(m), m);
  }

  lemma StartsWithOption(m: Mutation)
    requires Printable(m)
    ensures PrintMutation(m) != [] && StartsWithDash(PrintMutation(m)[0])
  {
    assert PrintDeltas(m.deltas)[0] == PrintDelta(m.deltas[0])[0];
  }

  /** A positional target gives the same mutation as the option, if it cannot be taken for one. */
  lemma PositionalTargetIsTheOption(id: string, rest: seq<string>, m: Mutation)
    requires id != "" && !StartsWithDash(id)
    ensures ParseMutation([id] + rest) == Ok(m) <==> ParseMutation([Print(SessionOption, id)] + rest) == Ok(m)
  {
    assert ([id] + rest)[1..] == rest;
    var args := [Print(SessionOption, id)];
    SpelledStep(args, rest, SessionOption, id, Initial(None));
  }
}
