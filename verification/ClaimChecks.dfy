/** The checks on the next claims, each stopping at the first offence. */
module ClaimChecks {
  import opened CoordinationTransactions
  import opened ResourceClaims
  import opened Resources
  import opened Wrappers

  method FindSelfOverlap(own: seq<Claim>) returns (found: bool)
    requires forall c :: c in own ==> IsCanonical(c.resource)
    ensures found == SelfOverlaps(own)
  {
    for index := 0 to |own|
      invariant forall i, j :: 0 <= j < i < index ==> !ClaimsMeet(own[i], own[j])
    {
      for prior := 0 to index
        invariant forall j :: 0 <= j < prior ==> !ClaimsMeet(own[index], own[j])
      {
        var overlap := ClaimsOverlap(own[index], own[prior]);
        if overlap { return true; }
      }
    }
    return false;
  }

  method FindConflict(own: seq<Claim>, external: seq<Claim>, facts: FactSource) returns (found: bool)
    requires forall c :: c in own || c in external ==> IsCanonical(c.resource)
    ensures found == ConflictsWithAny(own, external, facts)
  {
    for i := 0 to |own|
      invariant forall k, e :: 0 <= k < i && e in external ==> !Conflicts(own[k], e, facts(own[k], e))
    {
      for j := 0 to |external|
        invariant forall k :: 0 <= k < j ==> !Conflicts(own[i], external[k], facts(own[i], external[k]))
      {
        var overlap := ClaimsOverlap(own[i], external[j]);
        if !overlap { continue; }
        var conflict := ClaimsConflict(own[i], external[j], facts(own[i], external[j]));
        if conflict { return true; }
      }
    }
    return false;
  }

  /** `assertCompleteClaimSet`: own overlaps first, then conflicts, then the repository. */
  method CheckCompleteClaimSet(own: seq<Claim>, external: seq<Claim>, repositoryId: string, facts: FactSource)
    returns (error: Option<ErrorCode>)
    requires forall c :: c in own || c in external ==> IsCanonical(c.resource)
    ensures error == AssertCompleteClaimSet(own, external, repositoryId, facts)
  {
    var overlap := FindSelfOverlap(own);
    if overlap { return Some(ContradictoryClaim); }
    var conflict := FindConflict(own, external, facts);
    if conflict { return Some(ResourceClaimConflict); }
    for i := 0 to |own|
      invariant forall k :: 0 <= k < i ==> own[k].repositoryId == repositoryId
    {
      if own[i].repositoryId != repositoryId { return Some(RepositoryMismatch); }
    }
    return None;
  }

  method AnySelected(c: Claim, resources: seq<string>) returns (any: bool)
    requires IsCanonical(c.resource)
    ensures any == SelectsAny(c.resource, resources)
  {
    any := false;
    for i := 0 to |resources|
      invariant any == SelectsAny(c.resource, resources[..i])
    {
      assert resources[..i + 1][..i] == resources[..i];
      var matches := ResourceMatchesClaim(c, resources[i]);
      any := any || matches;
    }
    assert resources[..|resources|] == resources;
  }

  method ExecutionOverlapsClaim(x: Execution, c: Claim) returns (overlap: bool)
    requires IsCanonical(c.resource)
    ensures overlap == ExecutionOverlaps(x, c)
  {
    if x.resources == None || x.resources.value == [] { return true; }
    overlap := AnySelected(c, x.resources.value);
  }

  method IsBusy(x: Execution, c: Claim) returns (busy: bool)
    requires IsCanonical(c.resource)
    ensures busy == Busy(x, c)
  {
    if x.sessionId != c.sessionId || !x.managed || x.state == Stopped { return false; }
    busy := ExecutionOverlapsClaim(x, c);
  }

  method FindBusy(executions: seq<Execution>, c: Claim) returns (found: bool)
    requires IsCanonical(c.resource)
    ensures found == exists x :: x in executions && Busy(x, c)
  {
    for i := 0 to |executions|
      invariant forall k :: 0 <= k < i ==> !Busy(executions[k], c)
    {
      var busy := IsBusy(executions[i], c);
      if busy { return true; }
    }
    return false;
  }

  // ----- When a drain refusal is about a real overlap

  ghost predicate OverlapsAny(resource: string, resources: seq<string>) {
    exists r :: r in resources && ResourcesOverlap(resource, r)
  }

  /** Like `Busy`, but by a path that the claim and the execution have in common. */
  ghost predicate ReallyBusy(x: Execution, c: Claim) {
    && x.sessionId == c.sessionId && x.managed && x.state != Stopped
    && (x.resources == None || x.resources.value == [] || OverlapsAny(c.resource, x.resources.value))
  }

  /** The claim has no `**`, or the execution names no text with an empty segment. */
  predicate ComparedExactly(x: Execution, c: Claim) {
    StaysShallow(c.resource) || (x.resources.Some? && forall r :: r in x.resources.value ==> NoEmptySegments(r))
  }

  lemma {:induction false} AnyOverlapIsSelected(resource: string, resources: seq<string>)
    ensures OverlapsAny(resource, resources) ==> SelectsAny(resource, resources)
  {
    if resources != [] && OverlapsAny(resource, resources) {
      var r :| r in resources && ResourcesOverlap(resource, r);
      AnyOverlapIsSelected(resource, resources[..|resources| - 1]);
      SelectsEitherWay(resource, r);
      assert r != resources[|resources| - 1] ==> r in resources[..|resources| - 1];
    }
  }

  lemma {:induction false} AnySelectedOverlaps(resource: string, resources: seq<string>)
    requires IsCanonical(resource) && SelectsAny(resource, resources)
    requires StaysShallow(resource) || forall r :: r in resources ==> NoEmptySegments(r)
    ensures OverlapsAny(resource, resources)
  {
    var before, last := resources[..|resources| - 1], resources[|resources| - 1];
    CanonicalHasNoEmptySegments(resource);
    assert last in resources;
    if Selects(resource, last) {
      SelectsIsOverlap(resource, last);
    } else {
      AnySelectedOverlaps(resource, before);
      var r :| r in before && ResourcesOverlap(resource, r);
      assert r in resources;
    }
  }

  /** An execution that really touches a claim is always seen as busy; the converse holds where the
      two are compared exactly. */
  lemma BusyIsReal(x: Execution, c: Claim)
    requires IsCanonical(c.resource)
    ensures ReallyBusy(x, c) ==> Busy(x, c)
    ensures ComparedExactly(x, c) ==> (Busy(x, c) <==> ReallyBusy(x, c))
  {
    if x.resources.Some? && x.resources.value != [] {
      AnyOverlapIsSelected(c.resource, x.resources.value);
      if ComparedExactly(x, c) && SelectsAny(c.resource, x.resources.value) {
        AnySelectedOverlaps(c.resource, x.resources.value);
      }
    }
  }

  /** A managed execution of a session with a claim on `resource`, naming one text. */
  function Naming(sessionId: string, text: string): Execution {
    Execution("x", sessionId, Active, true, Some([text]))
  }

  ghost predicate BusyIsAlwaysReal(c: Claim) {
    forall x: Execution :: Busy(x, c) <==> ReallyBusy(x, c)
  }

  /** The drain check refuses a claim for real overlaps alone, whatever the executions name, if and
      only if the claim has no `**`. */
  lemma BusyIsAlwaysRealIff(c: Claim)
    requires IsCanonical(c.resource)
    ensures BusyIsAlwaysReal(c) <==> StaysShallow(c.resource)
  {
    if StaysShallow(c.resource) {
      forall x: Execution ensures Busy(x, c) <==> ReallyBusy(x, c) {
        BusyIsReal(x, c);
      }
    } else {
      CanonicalHasNoEmptySegments(c.resource);
      var text := AbsorbedText(c.resource);
      var x := Naming(c.sessionId, text);
      assert x.resources.value == [text] && SelectsAny(c.resource, [text]);
      assert Busy(x, c) && !ReallyBusy(x, c);
    }
  }

  ghost predicate ReallyUndrained(before: seq<Claim>, after: seq<Claim>, executions: seq<Execution>) {
    exists c, x :: c in before && x in executions && Shrinks(c, At(ByResource(after), c.resource)) && ReallyBusy(x, c)
  }

  predicate AllComparedExactly(claims: seq<Claim>, executions: seq<Execution>) {
    forall c, x :: c in claims && x in executions ==> ComparedExactly(x, c)
  }

  /** No shrinking of a claim that an execution really touches passes, and a refusal is about a real
      overlap where everything is compared exactly. */
  lemma UndrainedIsReal(before: seq<Claim>, after: seq<Claim>, executions: seq<Execution>)
    requires forall c :: c in before ==> IsCanonical(c.resource)
    ensures ReallyUndrained(before, after, executions) ==> Undrained(before, after, executions)
    ensures AllComparedExactly(before, executions) && Undrained(before, after, executions) ==>
      ReallyUndrained(before, after, executions)
  {
    forall c, x | c in before && x in executions
      ensures ReallyBusy(x, c) ==> Busy(x, c)
      ensures ComparedExactly(x, c) && Busy(x, c) ==> ReallyBusy(x, c)
    {
      BusyIsReal(x, c);
    }
  }

  /** The first shrinking claim with a busy execution is the offence. */
  method FindUndrained(before: seq<Claim>, after: seq<Claim>, executions: seq<Execution>) returns (found: bool)
    requires forall c :: c in before ==> IsCanonical(c.resource)
    ensures found == Undrained(before, after, executions)
  {
    var afterByResource := ByResource(after);
    for i := 0 to |before|
      invariant forall k, x :: 0 <= k < i && x in executions ==>
        Shrinks(before[k], At(afterByResource, before[k].resource)) ==> !Busy(x, before[k])
    {
      if !Shrinks(before[i], At(afterByResource, before[i].resource)) { continue; }
      var busy := FindBusy(executions, before[i]);
      if busy { return true; }
    }
    return false;
  }

  /** `assertExecutionDrain`. */
  method CheckExecutionDrain(before: seq<Claim>, after: seq<Claim>, executions: seq<Execution>)
    returns (error: Option<ErrorCode>)
    requires forall c :: c in before ==> IsCanonical(c.resource)
    ensures error == AssertExecutionDrain(before, after, executions)
    ensures ReallyUndrained(before, after, executions) ==> error.Some?
    ensures error.Some? && AllComparedExactly(before, executions) ==> ReallyUndrained(before, after, executions)
  {
    UndrainedIsReal(before, after, executions);
    var found := FindUndrained(before, after, executions);
    return if found then Some(OperationRejected) else None;
  }
}
