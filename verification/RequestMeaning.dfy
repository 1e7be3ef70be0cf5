/** What a transaction request asks for and what is wrong with it, read off the request itself. */
module RequestMeaning {
  import opened ClaimSets
  import opened CoordinationTransactions
  import opened ResourceClaims
  import opened Resources
  import opened Wrappers
  import Sorting

  // ----- What is asked for

  /** A binding of its own comes before the one of the whole request. */
  function SharingFor(own: Option<Sharing>, shared: Option<Sharing>): Option<Sharing> {
    if own == None then shared else own
  }

  predicate NamedBy(x: ClaimInput, r: Request, d: Desired) {
    d == Desired(x.resource, x.mode, SharingFor(x.sharing, r.sharing))
  }

  predicate UpsertedBy(x: DeltaInput, r: Request, d: Desired) {
    x.UpsertInput? && d == Desired(x.resource, x.mode, SharingFor(x.sharing, r.sharing))
  }

  /** The request asks for the resource in this mode, shared like this. */
  ghost predicate Asks(r: Request, d: Desired) {
    match r.kind
    case Release => false
    case Delta => r.deltas.Some? && exists x :: x in r.deltas.value && UpsertedBy(x, r, d)
    case _ => r.claims.Some? && exists x :: x in r.claims.value && NamedBy(x, r, d)
  }

  predicate GivesUp(r: Request, resource: string) {
    match r.kind
    case Release => r.resources.Some? && resource in r.resources.value
    case Delta => r.deltas.Some? && ReleaseInput(resource) in r.deltas.value
    case _ => false
  }

  // ----- What is wrong with it

  /** Sharing is for writes in worktrees of their own, under the name of a group. */
  predicate MayShare(mode: Mode, sharing: Option<Sharing>) {
    sharing.Some? ==>
      mode == Write && sharing.value.kind == "isolated-worktree" && 1 <= |sharing.value.groupId| <= 128
  }

  function ResourceOffence(resource: string): Option<ErrorCode> {
    var canonical := CanonicalizeResource(resource);
    if canonical.Err? then Some(canonical.error) else None
  }

  predicate Disagrees(own: Option<string>, actual: string) {
    own.Some? && own.value != actual
  }

  function InputOffence(x: ClaimInput, sharing: Option<Sharing>, owner: Session): Option<ErrorCode> {
    if Disagrees(x.repositoryId, owner.repositoryId) then Some(ClaimRepositoryMismatch)
    else if Disagrees(x.sessionId, owner.sessionId) || Disagrees(x.worktreePath, owner.worktreePath) then
      Some(ClaimSessionMismatch)
    else if !MayShare(x.mode, SharingFor(x.sharing, sharing)) then Some(InvalidClaim)
    else ResourceOffence(x.resource)
  }

  /** The offence of the first input that has one. */
  function InputsOffence(inputs: seq<ClaimInput>, sharing: Option<Sharing>, owner: Session): Option<ErrorCode> {
    if inputs == [] then None
    else if InputOffence(inputs[0], sharing, owner).Some? then InputOffence(inputs[0], sharing, owner)
    else InputsOffence(inputs[1..], sharing, owner)
  }

  predicate NamedTwice(inputs: seq<ClaimInput>) {
    exists i, j :: 0 <= i < j < |inputs| && inputs[i].resource == inputs[j].resource
  }

  predicate NamedBefore(deltas: seq<DeltaInput>, k: nat)
    requires k < |deltas|
  {
    exists j :: 0 <= j < k && deltas[j].resource == deltas[k].resource
  }

  function DeltaOffence(deltas: seq<DeltaInput>, k: nat, sharing: Option<Sharing>): Option<ErrorCode>
    requires k < |deltas|
  {
    var x := deltas[k];
    if ResourceOffence(x.resource).Some? then ResourceOffence(x.resource)
    else if NamedBefore(deltas, k) then Some(DuplicateClaim)
    else if x.UpsertInput? && !MayShare(x.mode, SharingFor(x.sharing, sharing)) then Some(InvalidClaim)
    else None
  }

  /** The offence of the first delta, from the `k`-th on, that has one. */
  function DeltasOffence(deltas: seq<DeltaInput>, k: nat, sharing: Option<Sharing>): Option<ErrorCode>
    requires k <= |deltas|
    decreases |deltas| - k
  {
    if k == |deltas| then None
    else if DeltaOffence(deltas, k, sharing).Some? then DeltaOffence(deltas, k, sharing)
    else DeltasOffence(deltas, k + 1, sharing)
  }

  function ResourcesOffence(resources: seq<string>): Option<ErrorCode> {
    if resources == [] then None
    else if ResourceOffence(resources[0]).Some? then ResourceOffence(resources[0])
    else ResourcesOffence(resources[1..])
  }

  /** A binding that is not the one of the whole request. */
  predicate OtherSharing(own: Option<Sharing>, shared: Option<Sharing>) {
    own.Some? && shared.Some? && own.value != shared.value
  }

  function GivenInputs(r: Request): seq<ClaimInput> {
    if r.claims.Some? then r.claims.value else []
  }

  function GivenDeltas(r: Request): seq<DeltaInput> {
    if r.deltas.Some? then r.deltas.value else []
  }

  function ReleaseOffence(r: Request): Option<ErrorCode> {
    if r.resources == None || r.resources.value == [] then Some(InvalidClaim)
    else if r.deltas.Some? || r.claims.Some? || r.sharing.Some? then Some(InvalidOperation)
    else ResourcesOffence(r.resources.value)
  }

  function DeltaRequestOffence(r: Request): Option<ErrorCode> {
    if GivenDeltas(r) == [] then Some(InvalidClaim)
    else if exists x :: x in GivenDeltas(r) && x.UpsertInput? && OtherSharing(x.sharing, r.sharing) then
      Some(ContradictoryClaim)
    else DeltasOffence(GivenDeltas(r), 0, r.sharing)
  }

  function ClaimsOffence(r: Request, owner: Session): Option<ErrorCode> {
    if r.kind == Acquire && GivenInputs(r) == [] then Some(InvalidClaim)
    else if exists x :: x in GivenInputs(r) && OtherSharing(x.sharing, r.sharing) then Some(ContradictoryClaim)
    else if InputsOffence(GivenInputs(r), r.sharing, owner).Some? then InputsOffence(GivenInputs(r), r.sharing, owner)
    else if NamedTwice(GivenInputs(r)) then Some(DuplicateClaim)
    else None
  }

  /** What is wrong with a request of this owner, the first offence first. */
  function RequestOffence(r: Request, owner: Session): Option<ErrorCode> {
    match r.kind
    case Release => ReleaseOffence(r)
    case Delta => DeltaRequestOffence(r)
    case _ => ClaimsOffence(r, owner)
  }

  // ----- Normalizing says just that

  /** What a normalized request still says. */
  ghost predicate SaysTheSame(n: Normalized, r: Request) {
    && (r.kind == Acquire <==> n.AcquireAll?) && (r.kind == Replace <==> n.ReplaceBy?)
    && (r.kind == Release <==> n.ReleaseAll?) && (r.kind == Delta <==> n.ApplyDeltas?)
    && (forall d :: d in DesiredOf(n) <==> Asks(r, d))
    && (forall k :: k in ReleasedOf(n) <==> GivesUp(r, k))
  }

  function ReleasedOf(n: Normalized): set<string> {
    match n
    case ReleaseAll(released) => released
    case ApplyDeltas(ds) => Drops(ds)
    case _ => {}
  }

  lemma SharingIsChecked(mode: Mode, sharing: Option<Sharing>)
    ensures ValidateSharing(sharing, mode) == if MayShare(mode, sharing) then Ok(sharing) else Err(InvalidClaim)
  {
  }

  lemma InputIsRead(x: ClaimInput, sharing: Option<Sharing>, owner: Session)
    ensures CanonicalizeClaimInput(x.(sharing := OrElse(x.sharing, sharing)), owner) ==
      match InputOffence(x, sharing, owner)
      case Some(e) => Err(e)
      case None => Ok(Desired(x.resource, x.mode, SharingFor(x.sharing, sharing)))
  {
    SharingIsChecked(x.mode, SharingFor(x.sharing, sharing));
    if CanonicalizeResource(x.resource).Ok? { CanonicalizationIsIdentity(x.resource); }
  }

  ghost predicate ReadOff(ds: seq<Desired>, inputs: seq<ClaimInput>, sharing: Option<Sharing>) {
    |ds| == |inputs| && forall i :: 0 <= i < |ds| ==>
      ds[i] == Desired(inputs[i].resource, inputs[i].mode, SharingFor(inputs[i].sharing, sharing))
  }

  lemma OneMoreRead(d: Desired, ds: seq<Desired>, inputs: seq<ClaimInput>, sharing: Option<Sharing>)
    requires inputs != [] && ReadOff(ds, inputs[1..], sharing)
    requires d == Desired(inputs[0].resource, inputs[0].mode, SharingFor(inputs[0].sharing, sharing))
    ensures ReadOff([d] + ds, inputs, sharing)
  {
  }

  lemma AllRead(inputs: seq<ClaimInput>, owner: Session, sharing: Option<Sharing>)
    requires inputs != []
    ensures var first := CanonicalizeClaimInput(inputs[0].(sharing := OrElse(inputs[0].sharing, sharing)), owner);
      var rest := CanonicalizeAll(inputs[1..], owner, sharing);
      CanonicalizeAll(inputs, owner, sharing) ==
        if first.Err? then Err(first.error) else if rest.Err? then rest else Ok([first.value] + rest.value)
  {
  }

  lemma {:induction false} InputsAreRead(inputs: seq<ClaimInput>, owner: Session, sharing: Option<Sharing>)
    ensures var read := CanonicalizeAll(inputs, owner, sharing);
      match InputsOffence(inputs, sharing, owner)
      case Some(e) => read == Err(e)
      case None => read.Ok? && ReadOff(read.value, inputs, sharing)
  {
    if inputs != [] {
      InputIsRead(inputs[0], sharing, owner);
      InputsAreRead(inputs[1..], owner, sharing);
      AllRead(inputs, owner, sharing);
      if InputsOffence(inputs, sharing, owner) == None {
        var d := Desired(inputs[0].resource, inputs[0].mode, SharingFor(inputs[0].sharing, sharing));
        OneMoreRead(d, CanonicalizeAll(inputs[1..], owner, sharing).value, inputs, sharing);
      }
    }
  }

  lemma ReadElements(ds: seq<Desired>, inputs: seq<ClaimInput>, r: Request)
    requires ReadOff(ds, inputs, r.sharing)
    ensures forall d :: d in ds <==> exists x :: x in inputs && NamedBy(x, r, d)
    ensures DistinctResources(ds) <==> !NamedTwice(inputs)
  {
    forall d | d in ds ensures exists x :: x in inputs && NamedBy(x, r, d) {
      var i :| 0 <= i < |ds| && ds[i] == d;
      assert inputs[i] in inputs && NamedBy(inputs[i], r, d);
    }
    forall x, d | x in inputs && NamedBy(x, r, d) ensures d in ds {
      var i :| 0 <= i < |inputs| && inputs[i] == x;
      assert ds[i] == d;
    }
  }

  ghost predicate SayInputs(ds: seq<Desired>, inputs: seq<ClaimInput>, r: Request) {
    forall d :: d in ds <==> exists x :: x in inputs && NamedBy(x, r, d)
  }

  lemma InputsAreCanonical(inputs: seq<ClaimInput>, r: Request, owner: Session)
    ensures var read := CanonicalInputs(inputs, owner, r.sharing);
      match InputsOffence(inputs, r.sharing, owner)
      case Some(e) => read == Err(e)
      case None => if NamedTwice(inputs) then read == Err(DuplicateClaim)
                   else read.Ok? && SayInputs(read.value, inputs, r)
  {
    InputsAreRead(inputs, owner, r.sharing);
    if CanonicalizeAll(inputs, owner, r.sharing).Ok? {
      var all := CanonicalizeAll(inputs, owner, r.sharing).value;
      ReadElements(all, inputs, r);
      Sorting.SortKeepsElements(all, DesiredKey);
    }
  }

  lemma SharingDisagrees(inputs: seq<ClaimInput>, sharing: Option<Sharing>)
    ensures (exists c :: c in inputs && !SharingAgrees(c.sharing, sharing)) <==>
      exists x :: x in inputs && OtherSharing(x.sharing, sharing)
  {
  }

  lemma ClaimsAreNormalized(r: Request, owner: Session)
    requires r.kind == Acquire || r.kind == Replace
    ensures match ClaimsOffence(r, owner)
      case Some(e) => NormalizeRequest(owner, r) == Err(e)
      case None => NormalizeRequest(owner, r).Ok? && SaysTheSame(NormalizeRequest(owner, r).value, r)
  {
    InputsAreCanonical(GivenInputs(r), r, owner);
    SharingDisagrees(GivenInputs(r), r.sharing);
  }

  lemma {:induction false} ResourcesAreRead(resources: seq<string>)
    ensures var read := CanonicalizeResources(resources);
      match ResourcesOffence(resources)
      case Some(e) => read == Err(e)
      case None => read.Ok? && forall k :: k in read.value <==> k in resources
  {
    if resources != [] {
      ResourcesAreRead(resources[1..]);
      if CanonicalizeResource(resources[0]).Ok? { CanonicalizationIsIdentity(resources[0]); }
      assert resources == [resources[0]] + resources[1..];
    }
  }

  lemma ReleaseIsNormalized(r: Request, owner: Session)
    requires r.kind == Release
    ensures match ReleaseOffence(r)
      case Some(e) => NormalizeRequest(owner, r) == Err(e)
      case None => NormalizeRequest(owner, r).Ok? && SaysTheSame(NormalizeRequest(owner, r).value, r)
  {
    if r.resources.Some? { ResourcesAreRead(r.resources.value); }
  }

  /** What one delta becomes. */
  function ReadDelta(x: DeltaInput, sharing: Option<Sharing>): NormalDelta {
    match x
    case UpsertInput(resource, mode, own) => Upsert(Desired(resource, mode, SharingFor(own, sharing)))
    case ReleaseInput(resource) => Drop(resource)
  }

  lemma DeltaIsRead(x: DeltaInput, owner: Session, sharing: Option<Sharing>)
    requires ResourceOffence(x.resource) == None
    ensures NormalizeDelta(x, owner, sharing) ==
      if x.UpsertInput? && !MayShare(x.mode, SharingFor(x.sharing, sharing)) then Err(InvalidClaim)
      else Ok(ReadDelta(x, sharing))
  {
    CanonicalizationIsIdentity(x.resource);
    if x.UpsertInput? { SharingIsChecked(x.mode, SharingFor(x.sharing, sharing)); }
  }

  function ResourcesBefore(deltas: seq<DeltaInput>, k: nat): set<string>
    requires k <= |deltas|
  {
    set j | 0 <= j < k :: deltas[j].resource
  }

  ghost predicate DeltasReadOff(ns: seq<NormalDelta>, deltas: seq<DeltaInput>, sharing: Option<Sharing>) {
    |ns| == |deltas| && forall i :: 0 <= i < |ns| ==> ns[i] == ReadDelta(deltas[i], sharing)
  }

  lemma {:induction false} DeltasAreRead(deltas: seq<DeltaInput>, k: nat, owner: Session, sharing: Option<Sharing>)
    requires k <= |deltas|
    ensures var read := NormalizeDeltas(deltas[k..], owner, sharing, ResourcesBefore(deltas, k));
      match DeltasOffence(deltas, k, sharing)
      case Some(e) => read == Err(e)
      case None => read.Ok? && DeltasReadOff(read.value, deltas[k..], sharing)
    decreases |deltas| - k
  {
    if k < |deltas| {
      var seen := ResourcesBefore(deltas, k);
      assert deltas[k..][0] == deltas[k] && deltas[k..][1..] == deltas[k + 1..];
      if CanonicalizeResource(deltas[k].resource).Ok? {
        CanonicalizationIsIdentity(deltas[k].resource);
        DeltaIsRead(deltas[k], owner, sharing);
        assert ResourcesBefore(deltas, k + 1) == seen + {deltas[k].resource};
        DeltasAreRead(deltas, k + 1, owner, sharing);
      }
    }
  }

  lemma DeltaElements(ns: seq<NormalDelta>, r: Request)
    requires r.kind == Delta && r.deltas.Some? && DeltasReadOff(ns, r.deltas.value, r.sharing)
    ensures forall d :: d in Upserts(ns) <==> Asks(r, d)
    ensures forall k :: k in Drops(ns) <==> GivesUp(r, k)
  {
    var deltas := r.deltas.value;
    forall d | Upsert(d) in ns ensures Asks(r, d) {
      var i :| 0 <= i < |ns| && ns[i] == Upsert(d);
      assert deltas[i] in deltas && UpsertedBy(deltas[i], r, d);
    }
    forall x, d | x in deltas && UpsertedBy(x, r, d) ensures Upsert(d) in ns {
      var i :| 0 <= i < |deltas| && deltas[i] == x;
      assert ns[i] == Upsert(d);
    }
    forall k | Drop(k) in ns ensures ReleaseInput(k) in deltas {
      var i :| 0 <= i < |ns| && ns[i] == Drop(k);
      assert deltas[i] == ReleaseInput(k);
    }
    forall k | ReleaseInput(k) in deltas ensures Drop(k) in ns {
      var i :| 0 <= i < |deltas| && deltas[i] == ReleaseInput(k);
      assert ns[i] == Drop(k);
    }
  }

  lemma DeltaIsNormalized(r: Request, owner: Session)
    requires r.kind == Delta
    ensures match DeltaRequestOffence(r)
      case Some(e) => NormalizeRequest(owner, r) == Err(e)
      case None => NormalizeRequest(owner, r).Ok? && SaysTheSame(NormalizeRequest(owner, r).value, r)
  {
    var deltas := GivenDeltas(r);
    DeltasAreRead(deltas, 0, owner, r.sharing);
    assert deltas[0..] == deltas && ResourcesBefore(deltas, 0) == {};
    if DeltaRequestOffence(r) == None {
      DeltaElements(NormalizeDeltas(deltas, owner, r.sharing, {}).value, r);
    }
  }

  /** A request is refused for its first offence, and otherwise read for what it says. */
  lemma RequestsAreRead(r: Request, owner: Session)
    ensures match RequestOffence(r, owner)
      case Some(e) => NormalizeRequest(owner, r) == Err(e)
      case None => NormalizeRequest(owner, r).Ok? && SaysTheSame(NormalizeRequest(owner, r).value, r)
  {
    match r.kind
    case Release => ReleaseIsNormalized(r, owner);
    case Delta => DeltaIsNormalized(r, owner);
    case _ => ClaimsAreNormalized(r, owner);
  }
}
