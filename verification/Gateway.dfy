/** The capability host's admission gate: authenticated, idempotent admission with
    backpressure, control and completion. */
module Gateway {
  import opened Base
  import opened Utf8

  type Id = string

  /** Every execution-relevant field of an approved invocation. */
  datatype Request = Request(
    schema: nat, invocation: Id, decision: Id, generation: nat, capability: string, adapterVersion: string,
    bindingHash: string, extension: Option<string>, isolation: Option<string>, kind: string,
    scopes: seq<string>, deadline: nat, cancellationToken: Id, leases: seq<Id>, maxOutputBytes: nat, payload: string)

  datatype Control = Control(schema: nat, control: Id, invocation: Id, generation: nat, cancellationToken: Id)

  /** Digests and authentication codes are modelled by what they cover. */
  datatype RequestHash = OfRequest(request: Request)
  datatype Tag = RequestTag(key: Bytes, request: Request) | ControlTag(key: Bytes, control: Control) | Unreadable

  datatype Envelope = Envelope(request: Request, tag: Tag)
  datatype ControlEnvelope = ControlEnvelope(control: Control, tag: Tag)

  datatype Descriptor = Descriptor(
    kind: string, maxInputBytes: nat, maxOutputBytes: nat, allowedScopes: set<string>, secretSlots: nat)

  /** What a frozen registry holds for a capability. */
  datatype Registered = Registered(
    adapterVersion: string, bindingHash: string, extension: Option<string>, isolation: Option<string>, descriptor: Descriptor)

  datatype Disposition = Execute | AlreadyActive | AlreadyCompleted
  datatype Receipt = Receipt(invocation: Id, hash: RequestHash, duplicate: bool, disposition: Disposition, descriptor: Descriptor)

  datatype RegistryError = Unknown | VersionDrift | HashDrift | ExtensionAttestationDrift | IsolationProfileDrift

  datatype Error =
    | UnsupportedSchema | StaleGeneration | Authentication | DeadlineElapsed | Registry(refusal: RegistryError) | KindMismatch
    | OutputLimitBroadened | NonCanonicalAuthority | ScopeBroadened | LeaseCountBroadened | PayloadTooLarge
    | InvocationIdentityConflict | Backpressure | UnknownInvocation | CancellationTokenMismatch

  datatype Result<+T> = Ok(value: T) | Err(error: Error)

  /** What is fixed for one host generation. */
  datatype Config = Config(generation: nat, registry: map<string, Registered>, key: Bytes, maximumActive: nat) {
    function Capacity(): nat { if maximumActive < 1 then 1 else maximumActive }
  }

  datatype Admission = Admission(hash: RequestHash, cancellationToken: Id, cancelled: bool)
  datatype HostState = HostState(admissions: map<Id, Admission>, completed: map<Id, RequestHash>)

  // ---------------------------------------------------------------------- admission

  predicate StrictlyAscending(texts: seq<string>) {
    forall i | 0 < i < |texts| :: !TextAtMost(texts[i], texts[i - 1])
  }

  /** `resolve_for_admission`: what differs from the frozen registry first. */
  function Drift(config: Config, request: Request): (r: Option<RegistryError>)
    ensures r.None? ==> request.capability in config.registry
  {
    if request.capability !in config.registry then Some(Unknown)
    else
      var found := config.registry[request.capability];
      if found.adapterVersion != request.adapterVersion then Some(VersionDrift)
      else if found.bindingHash != request.bindingHash then Some(HashDrift)
      else if found.extension != request.extension then Some(ExtensionAttestationDrift)
      else if found.isolation != request.isolation then Some(IsolationProfileDrift)
      else None
  }

  /** The fences before deduplication, in order. */
  function Refusal(config: Config, envelope: Envelope, now: nat): Option<Error> {
    var request := envelope.request;
    if request.schema != 1 then Some(UnsupportedSchema)
    else if request.generation != config.generation then Some(StaleGeneration)
    else if envelope.tag != RequestTag(config.key, request) then Some(Authentication)
    else if request.deadline <= now then Some(DeadlineElapsed)
    else if Drift(config, request).Some? then Some(Registry(Drift(config, request).value))
    else
      var descriptor := config.registry[request.capability].descriptor;
      if descriptor.kind != request.kind then Some(KindMismatch)
      else if request.maxOutputBytes == 0 || request.maxOutputBytes > descriptor.maxOutputBytes then Some(OutputLimitBroadened)
      else if !StrictlyAscending(request.scopes) || !StrictlyAscending(request.leases) then Some(NonCanonicalAuthority)
      else if exists scope | scope in request.scopes :: scope !in descriptor.allowedScopes then Some(ScopeBroadened)
      else if |request.leases| > descriptor.secretSlots then Some(LeaseCountBroadened)
      else if Utf8Length(request.payload) > descriptor.maxInputBytes then Some(PayloadTooLarge)
      else None
  }

  /** The request an invocation id is bound to, active or completed. */
  function Bound(state: HostState, id: Id): Option<RequestHash> {
    if id in state.completed then Some(state.completed[id])
    else if id in state.admissions then Some(state.admissions[id].hash)
    else None
  }

  function ReceiptFor(config: Config, request: Request, disposition: Disposition): Receipt
    requires request.capability in config.registry
  {
    Receipt(request.invocation, OfRequest(request), disposition != Execute, disposition,
            config.registry[request.capability].descriptor)
  }

  datatype Step<T> = Step(state: HostState, result: Result<T>)

  /** `admit_v1`. */
  function Admit(config: Config, state: HostState, envelope: Envelope, now: nat): (step: Step<Receipt>) {
    var refusal, request := Refusal(config, envelope, now), envelope.request;
    var id, hash := request.invocation, OfRequest(request);
    if refusal.Some? then Step(state, Err(refusal.value))
    else if id in state.completed then
      Step(state, if state.completed[id] != hash then Err(InvocationIdentityConflict)
                  else Ok(ReceiptFor(config, request, AlreadyCompleted)))
    else if id in state.admissions then
      Step(state, if state.admissions[id].hash != hash then Err(InvocationIdentityConflict)
                  else Ok(ReceiptFor(config, request, AlreadyActive)))
    else if |state.admissions| >= config.Capacity() then Step(state, Err(Backpressure))
    else
      Step(state.(admissions := state.admissions[id := Admission(hash, request.cancellationToken, false)]),
           Ok(ReceiptFor(config, request, Execute)))
  }

  /** `apply_control_v1`. */
  function Controlled(config: Config, state: HostState, envelope: ControlEnvelope): (step: Step<()>) {
    var control := envelope.control;
    var id := control.invocation;
    if control.schema != 1 then Step(state, Err(UnsupportedSchema))
    else if control.generation != config.generation then Step(state, Err(StaleGeneration))
    else if envelope.tag != ControlTag(config.key, control) then Step(state, Err(Authentication))
    else if id !in state.admissions then Step(state, Err(UnknownInvocation))
    else if state.admissions[id].cancellationToken != control.cancellationToken then
      Step(state, Err(CancellationTokenMismatch))
    else Step(state.(admissions := state.admissions[id := state.admissions[id].(cancelled := true)]), Ok(()))
  }

  /** `complete`. */
  function Completed(state: HostState, id: Id): (step: Step<()>) {
    if id !in state.admissions then Step(state, Err(UnknownInvocation))
    else Step(HostState(state.admissions - {id}, state.completed[id := state.admissions[id].hash]), Ok(()))
  }

  // --------------------------------------------------------------------------- runs

  /** A whole call. A dispatch is an admission and, unless the session stays active,
      a later completion. */
  datatype HostCall = AdmitCall(envelope: Envelope, now: nat) | ControlCall(control: ControlEnvelope) | CompleteCall(id: Id)

  function After(config: Config, state: HostState, call: HostCall): HostState {
    match call
    case AdmitCall(envelope, now) => Admit(config, state, envelope, now).state
    case ControlCall(control) => Controlled(config, state, control).state
    case CompleteCall(id) => Completed(state, id).state
  }

  ghost predicate Run(config: Config, states: seq<HostState>, calls: seq<HostCall>) {
    && |states| == |calls| + 1
    && forall i: nat :: i < |calls| ==> CalledAt(config, states, calls, i)
  }

  ghost predicate CalledAt(config: Config, states: seq<HostState>, calls: seq<HostCall>, i: nat)
    requires |states| == |calls| + 1 && i < |calls|
  {
    states[i + 1] == After(config, states[i], calls[i])
  }

  predicate Valid(config: Config, state: HostState) {
    state.admissions.Keys !! state.completed.Keys && |state.admissions| <= config.Capacity()
  }

  const IDLE := HostState(map[], map[])

  lemma CallKeepsValid(config: Config, state: HostState, call: HostCall)
    requires Valid(config, state)
    ensures Valid(config, After(config, state, call))
  {
    match call
    case AdmitCall(envelope, now) =>
    case ControlCall(control) =>
      var id := control.control.invocation;
      if id in state.admissions {
        var updated := state.admissions[id := state.admissions[id].(cancelled := true)];
        assert updated.Keys == state.admissions.Keys;
        assert |updated| == |updated.Keys| && |state.admissions| == |state.admissions.Keys|;
      }
    case CompleteCall(id) =>
      if id in state.admissions {
        var rest := state.admissions - {id};
        assert rest.Keys == state.admissions.Keys - {id};
        assert |rest| == |rest.Keys| && |state.admissions| == |state.admissions.Keys|;
      }
  }

  /** Active and completed ids stay apart and no more than the maximum are active. */
  lemma {:induction false} RunsStayValid(config: Config, states: seq<HostState>, calls: seq<HostCall>, i: nat)
    requires Run(config, states, calls) && states[0] == IDLE && i < |states|
    ensures Valid(config, states[i])
  {
    if i > 0 {
      RunsStayValid(config, states, calls, i - 1);
      assert CalledAt(config, states, calls, i - 1);
      CallKeepsValid(config, states[i - 1], calls[i - 1]);
    }
  }

  /** No call ever changes or forgets what an id is bound to. */
  lemma CallKeepsBound(config: Config, state: HostState, call: HostCall, id: Id)
    requires Valid(config, state) && Bound(state, id).Some?
    ensures Bound(After(config, state, call), id) == Bound(state, id)
  {
  }

  lemma {:induction false} RunKeepsBound(config: Config, states: seq<HostState>, calls: seq<HostCall>, i: nat, j: nat, id: Id)
    requires Run(config, states, calls) && states[0] == IDLE && i <= j < |states| && Bound(states[i], id).Some?
    ensures Bound(states[j], id) == Bound(states[i], id)
    decreases j
  {
    if i < j {
      RunKeepsBound(config, states, calls, i, j - 1, id);
      NextKeepsBound(config, states, calls, j - 1, id);
    }
  }

  lemma NextKeepsBound(config: Config, states: seq<HostState>, calls: seq<HostCall>, i: nat, id: Id)
    requires Run(config, states, calls) && states[0] == IDLE && i < |calls| && Bound(states[i], id).Some?
    ensures Bound(states[i + 1], id) == Bound(states[i], id)
  {
    RunsStayValid(config, states, calls, i);
    assert CalledAt(config, states, calls, i);
    CallKeepsBound(config, states[i], calls[i], id);
  }

  ghost predicate Accepts(config: Config, state: HostState, call: HostCall, id: Id) {
    && call.AdmitCall? && call.envelope.request.invocation == id
    && Admit(config, state, call.envelope, call.now).result.Ok?
  }

  ghost predicate Executes(config: Config, state: HostState, call: HostCall, id: Id) {
    && Accepts(config, state, call, id)
    && Admit(config, state, call.envelope, call.now).result.value.disposition == Execute
  }

  lemma AcceptedIsBound(config: Config, state: HostState, call: HostCall, id: Id)
    requires Accepts(config, state, call, id)
    ensures Bound(After(config, state, call), id) == Some(OfRequest(call.envelope.request))
    ensures Bound(state, id).Some? ==>
              Bound(state, id) == Some(OfRequest(call.envelope.request)) && !Executes(config, state, call, id)
  {
  }

  /** Over any run an invocation id is told to execute at most once, and every
      accepted envelope under that id carries the same request. */
  lemma ExecutesOnce(config: Config, states: seq<HostState>, calls: seq<HostCall>, i: nat, j: nat, id: Id)
    requires Run(config, states, calls) && states[0] == IDLE && i < j < |calls|
    requires Accepts(config, states[i], calls[i], id) && Accepts(config, states[j], calls[j], id)
    ensures !Executes(config, states[j], calls[j], id)
    ensures calls[j].envelope.request == calls[i].envelope.request
  {
    assert CalledAt(config, states, calls, i);
    AcceptedIsBound(config, states[i], calls[i], id);
    RunKeepsBound(config, states, calls, i + 1, j, id);
    AcceptedIsBound(config, states[j], calls[j], id);
  }

  /** An authentic request under a bound id is accepted exactly when it is the one
      the id is bound to, however full the host is. */
  lemma BoundDecides(config: Config, state: HostState, envelope: Envelope, now: nat)
    requires Refusal(config, envelope, now).None? && Bound(state, envelope.request.invocation).Some?
    ensures Admit(config, state, envelope, now).state == state
    ensures Admit(config, state, envelope, now).result.Ok?
            <==> Bound(state, envelope.request.invocation) == Some(OfRequest(envelope.request))
    ensures Admit(config, state, envelope, now).result.Err? ==>
              Admit(config, state, envelope, now).result == Err(InvocationIdentityConflict)
  {
  }

  /** Once an id was accepted, every later request under it that passes the fences is
      accepted exactly when it is the same one, and changes nothing either way. */
  lemma LaterRequestsDecided(config: Config, states: seq<HostState>, calls: seq<HostCall>, i: nat, j: nat, id: Id)
    requires Run(config, states, calls) && states[0] == IDLE && i < j < |calls|
    requires Accepts(config, states[i], calls[i], id)
    requires calls[j].AdmitCall? && calls[j].envelope.request.invocation == id
    requires Refusal(config, calls[j].envelope, calls[j].now).None?
    ensures Accepts(config, states[j], calls[j], id) <==> calls[j].envelope.request == calls[i].envelope.request
    ensures !Accepts(config, states[j], calls[j], id) ==>
              Admit(config, states[j], calls[j].envelope, calls[j].now).result == Err(InvocationIdentityConflict)
    ensures states[j + 1] == states[j]
  {
    assert CalledAt(config, states, calls, i) && CalledAt(config, states, calls, j);
    AcceptedIsBound(config, states[i], calls[i], id);
    RunKeepsBound(config, states, calls, i + 1, j, id);
    BoundDecides(config, states[j], calls[j].envelope, calls[j].now);
  }

  /** A control takes effect exactly when it is current, authentic and names an
      active invocation by its own token; then it cancels that one, and nothing else. */
  lemma ControlCancelsOne(config: Config, state: HostState, envelope: ControlEnvelope, id: Id)
    ensures var step, control := Controlled(config, state, envelope), envelope.control;
            && (step.result.Ok? <==>
                  && control.schema == 1 && control.generation == config.generation
                  && envelope.tag == ControlTag(config.key, control) && control.invocation in state.admissions
                  && state.admissions[control.invocation].cancellationToken == control.cancellationToken)
            && step.state.completed == state.completed && (id in step.state.admissions <==> id in state.admissions)
            && (id in state.admissions ==>
                  step.state.admissions[id]
                  == state.admissions[id].(cancelled := state.admissions[id].cancelled
                                                        || (step.result.Ok? && id == control.invocation)))
  {
  }

  ghost predicate Cancels(config: Config, state: HostState, call: HostCall, id: Id) {
    call.ControlCall? && call.control.control.invocation == id && Controlled(config, state, call.control).result.Ok?
  }

  ghost predicate CancelledBy(config: Config, states: seq<HostState>, calls: seq<HostCall>, j: nat, id: Id)
    requires |states| == |calls| + 1 && j <= |calls|
  {
    exists k: nat :: k < j && Cancels(config, states[k], calls[k], id)
  }

  lemma CallCancels(config: Config, state: HostState, call: HostCall, id: Id)
    requires id in state.admissions
    ensures var after := After(config, state, call);
            id in after.admissions ==>
              after.admissions[id].cancelled == (state.admissions[id].cancelled || Cancels(config, state, call, id))
  {
    if call.ControlCall? {
      ControlCancelsOne(config, state, call.control, id);
    }
  }

  /** An id that is new to the host was never cancelled before. */
  lemma NewIsUncancelled(config: Config, states: seq<HostState>, calls: seq<HostCall>, j: nat, id: Id)
    requires Run(config, states, calls) && states[0] == IDLE && j < |states| && Bound(states[j], id).None?
    ensures !CancelledBy(config, states, calls, j, id)
  {
    forall k: nat | k < j ensures !Cancels(config, states[k], calls[k], id) {
      if Bound(states[k], id).Some? {
        RunKeepsBound(config, states, calls, k, j, id);
      }
    }
  }

  lemma CancelledNext(config: Config, states: seq<HostState>, calls: seq<HostCall>, j: nat, id: Id)
    requires |states| == |calls| + 1 && j < |calls|
    ensures CancelledBy(config, states, calls, j + 1, id)
       <==> CancelledBy(config, states, calls, j, id) || Cancels(config, states[j], calls[j], id)
  {
  }

  /** In every run an active invocation is cancelled exactly when some control was
      accepted for it, however many other calls came in between. */
  lemma {:induction false} CancelledExactly(config: Config, states: seq<HostState>, calls: seq<HostCall>, j: nat, id: Id)
    requires Run(config, states, calls) && states[0] == IDLE && j < |states| && id in states[j].admissions
    ensures states[j].admissions[id].cancelled <==> CancelledBy(config, states, calls, j, id)
    decreases j
  {
    if j > 0 {
      assert CalledAt(config, states, calls, j - 1);
      RunsStayValid(config, states, calls, j - 1);
      CancelledNext(config, states, calls, j - 1, id);
      if id in states[j - 1].admissions {
        CancelledExactly(config, states, calls, j - 1, id);
        CallCancels(config, states[j - 1], calls[j - 1], id);
      } else {
        NewIsUncancelled(config, states, calls, j - 1, id);
      }
    }
  }

  // ------------------------------------------------------------- what is admitted

  /** The request and its tag are current, in time, and authentic under the host's key. */
  predicate Authentic(config: Config, envelope: Envelope, now: nat) {
    var request := envelope.request;
    && request.schema == 1 && request.generation == config.generation
    && envelope.tag == RequestTag(config.key, request) && now < request.deadline
  }

  /** The frozen registry holds the capability just as the request names it. */
  predicate Registers(config: Config, request: Request) {
    && request.capability in config.registry
    && var found := config.registry[request.capability];
       && found.adapterVersion == request.adapterVersion && found.bindingHash == request.bindingHash
       && found.extension == request.extension && found.isolation == request.isolation
  }

  /** The request asks for no more than the descriptor allows. */
  ghost predicate Within(descriptor: Descriptor, request: Request) {
    && request.kind == descriptor.kind
    && 1 <= request.maxOutputBytes <= descriptor.maxOutputBytes
    && Increasing(request.scopes) && Increasing(request.leases)
    && (forall scope :: scope in request.scopes ==> scope in descriptor.allowedScopes)
    && |request.leases| <= descriptor.secretSlots
    && |Encode(request.payload)| <= descriptor.maxInputBytes
  }

  /** Sorted without repetition. */
  ghost predicate Increasing(texts: seq<string>) {
    forall i, j :: 0 <= i < j < |texts| ==> TextAtMost(texts[i], texts[j]) && texts[i] != texts[j]
  }

  lemma {:induction false} AscendingIncreases(texts: seq<string>, i: nat, j: nat)
    requires StrictlyAscending(texts) && i < j < |texts|
    ensures TextAtMost(texts[i], texts[j]) && texts[i] != texts[j]
    decreases j
  {
    TextTotal(texts[j - 1], texts[j]);
    TextReflexive(texts[j]);
    if i < j - 1 {
      AscendingIncreases(texts, i, j - 1);
      TextTransitive(texts[i], texts[j - 1], texts[j]);
    }
  }

  lemma AscendingExactly(texts: seq<string>)
    ensures StrictlyAscending(texts) <==> Increasing(texts)
  {
    if StrictlyAscending(texts) {
      forall i, j | 0 <= i < j < |texts| ensures TextAtMost(texts[i], texts[j]) && texts[i] != texts[j] {
        AscendingIncreases(texts, i, j);
      }
    }
    if Increasing(texts) {
      forall i | 0 < i < |texts| ensures !TextAtMost(texts[i], texts[i - 1]) {
        TextAntisymmetric(texts[i - 1], texts[i]);
      }
    }
  }

  lemma RefusedExactly(config: Config, envelope: Envelope, now: nat)
    ensures Refusal(config, envelope, now).None? <==>
              && Authentic(config, envelope, now) && Registers(config, envelope.request)
              && Within(config.registry[envelope.request.capability].descriptor, envelope.request)
  {
    AscendingExactly(envelope.request.scopes);
    AscendingExactly(envelope.request.leases);
    EncodedLength(envelope.request.payload);
  }

  /** A request is admitted exactly when it is authentic, registered and within its
      descriptor, and its id is bound to this very request, or to none while there is room. */
  lemma AdmittedExactly(config: Config, state: HostState, envelope: Envelope, now: nat)
    ensures Admit(config, state, envelope, now).result.Ok? <==>
              && Authentic(config, envelope, now) && Registers(config, envelope.request)
              && Within(config.registry[envelope.request.capability].descriptor, envelope.request)
              && match Bound(state, envelope.request.invocation)
                 case Some(hash) => hash == OfRequest(envelope.request)
                 case None => |state.admissions| < config.Capacity()
    ensures Admit(config, state, envelope, now).result.Ok? ==>
              var receipt, id := Admit(config, state, envelope, now).result.value, envelope.request.invocation;
              && receipt.invocation == id && receipt.hash == OfRequest(envelope.request)
              && receipt.descriptor == config.registry[envelope.request.capability].descriptor
              && (receipt.duplicate <==> Bound(state, id).Some?)
              && (receipt.disposition == Execute <==> Bound(state, id).None?)
              && (receipt.disposition == AlreadyCompleted <==> id in state.completed)
  {
    RefusedExactly(config, envelope, now);
  }

  ghost predicate BoundBy(config: Config, calls: seq<HostCall>, k: nat, request: Request)
    requires k < |calls|
  {
    && calls[k].AdmitCall? && calls[k].envelope.request == request
    && Authentic(config, calls[k].envelope, calls[k].now) && Registers(config, request)
    && Within(config.registry[request.capability].descriptor, request)
  }

  /** In every run, whatever an id is bound to came in an authentic envelope before. */
  lemma {:induction false} BoundIsAuthentic(config: Config, states: seq<HostState>, calls: seq<HostCall>, j: nat, id: Id)
    requires Run(config, states, calls) && states[0] == IDLE && j < |states| && Bound(states[j], id).Some?
    ensures var request := Bound(states[j], id).value.request;
            request.invocation == id && exists k: nat :: k < j && BoundBy(config, calls, k, request)
    decreases j
  {
    if j > 0 {
      assert CalledAt(config, states, calls, j - 1);
      RunsStayValid(config, states, calls, j - 1);
      if Bound(states[j - 1], id).Some? {
        BoundIsAuthentic(config, states, calls, j - 1, id);
        NextKeepsBound(config, states, calls, j - 1, id);
      } else {
        NewlyBound(config, states[j - 1], calls[j - 1], id);
        assert BoundBy(config, calls, j - 1, calls[j - 1].envelope.request);
      }
    }
  }

  lemma NewlyBound(config: Config, state: HostState, call: HostCall, id: Id)
    requires Valid(config, state) && Bound(state, id).None? && Bound(After(config, state, call), id).Some?
    ensures call.AdmitCall? && call.envelope.request.invocation == id
    ensures Bound(After(config, state, call), id).value == OfRequest(call.envelope.request)
    ensures Authentic(config, call.envelope, call.now) && Registers(config, call.envelope.request)
    ensures Within(config.registry[call.envelope.request.capability].descriptor, call.envelope.request)
  {
    if call.AdmitCall? {
      AdmittedExactly(config, state, call.envelope, call.now);
    }
  }

  // ----------------------------------------------------------------- which refusal

  /** The fences in the order the host takes them; other errors come after them all. */
  function Rank(fence: Error): nat {
    match fence
    case UnsupportedSchema => 0
    case StaleGeneration => 1
    case Authentication => 2
    case DeadlineElapsed => 3
    case Registry(Unknown) => 4
    case Registry(VersionDrift) => 5
    case Registry(HashDrift) => 6
    case Registry(ExtensionAttestationDrift) => 7
    case Registry(IsolationProfileDrift) => 8
    case KindMismatch => 9
    case OutputLimitBroadened => 10
    case NonCanonicalAuthority => 11
    case ScopeBroadened => 12
    case LeaseCountBroadened => 13
    case PayloadTooLarge => 14
    case _ => 15
  }

  /** The request passes one fence. */
  ghost predicate Passes(config: Config, envelope: Envelope, now: nat, fence: Error) {
    var request := envelope.request;
    var known := request.capability in config.registry;
    match fence
    case UnsupportedSchema => request.schema == 1
    case StaleGeneration => request.generation == config.generation
    case Authentication => envelope.tag == RequestTag(config.key, request)
    case DeadlineElapsed => now < request.deadline
    case Registry(Unknown) => known
    case Registry(VersionDrift) => known && config.registry[request.capability].adapterVersion == request.adapterVersion
    case Registry(HashDrift) => known && config.registry[request.capability].bindingHash == request.bindingHash
    case Registry(ExtensionAttestationDrift) => known && config.registry[request.capability].extension == request.extension
    case Registry(IsolationProfileDrift) => known && config.registry[request.capability].isolation == request.isolation
    case KindMismatch => known && config.registry[request.capability].descriptor.kind == request.kind
    case OutputLimitBroadened =>
      known && 1 <= request.maxOutputBytes <= config.registry[request.capability].descriptor.maxOutputBytes
    case NonCanonicalAuthority => Increasing(request.scopes) && Increasing(request.leases)
    case ScopeBroadened =>
      known && forall scope :: scope in request.scopes ==> scope in config.registry[request.capability].descriptor.allowedScopes
    case LeaseCountBroadened => known && |request.leases| <= config.registry[request.capability].descriptor.secretSlots
    case PayloadTooLarge => known && |Encode(request.payload)| <= config.registry[request.capability].descriptor.maxInputBytes
    case _ => true
  }

  ghost predicate PassesBefore(config: Config, envelope: Envelope, now: nat, rank: nat) {
    forall fence :: Rank(fence) < rank ==> Passes(config, envelope, now, fence)
  }

  lemma RefusalIsFirst(config: Config, envelope: Envelope, now: nat)
    ensures match Refusal(config, envelope, now)
            case None => PassesBefore(config, envelope, now, 15)
            case Some(fence) =>
              Rank(fence) < 15 && !Passes(config, envelope, now, fence) && PassesBefore(config, envelope, now, Rank(fence))
  {
    AscendingExactly(envelope.request.scopes);
    AscendingExactly(envelope.request.leases);
    EncodedLength(envelope.request.payload);
  }

  lemma RankInjective(a: Error, b: Error)
    requires Rank(a) == Rank(b) < 15
    ensures a == b
  {
  }

  /** The answer names the first fence the request does not pass. */
  lemma FirstFenceDecides(config: Config, envelope: Envelope, now: nat, fence: Error)
    requires Rank(fence) < 15
    ensures Refusal(config, envelope, now) == Some(fence)
       <==> !Passes(config, envelope, now, fence) && PassesBefore(config, envelope, now, Rank(fence))
  {
    RefusalIsFirst(config, envelope, now);
    match Refusal(config, envelope, now)
    case None =>
    case Some(first) =>
      if Rank(first) == Rank(fence) {
        RankInjective(first, fence);
      }
  }

  // ----------------------------------------------------------------------- the host

  class CapabilityHost {
    const config: Config
    var admissions: map<Id, Admission>
    var completed: map<Id, RequestHash>

    ghost function State(): HostState
      reads this
    {
      HostState(admissions, completed)
    }

    constructor (config: Config)
      ensures this.config == config && State() == IDLE && Valid(config, State())
    {
      this.config := config;
      admissions, completed := map[], map[];
    }

    /** `admit_v1`. */
    method AdmitV1(envelope: Envelope, now: nat) returns (r: Result<Receipt>)
      requires Valid(config, State())
      modifies this
      ensures Valid(config, State())
      ensures old(Admit(config, State(), envelope, now)) == Step(State(), r)
    {
      var request := envelope.request;
      var refusal, id, hash := Refusal(config, envelope, now), request.invocation, OfRequest(request);
      CallKeepsValid(config, State(), AdmitCall(envelope, now));
      if refusal.Some? { return Err(refusal.value); }
      if id in completed {
        if completed[id] != hash { return Err(InvocationIdentityConflict); }
        return Ok(ReceiptFor(config, request, AlreadyCompleted));
      }
      if id in admissions {
        if admissions[id].hash != hash { return Err(InvocationIdentityConflict); }
        return Ok(ReceiptFor(config, request, AlreadyActive));
      }
      if |admissions| >= config.Capacity() { return Err(Backpressure); }
      admissions := admissions[id := Admission(hash, request.cancellationToken, false)];
      return Ok(ReceiptFor(config, request, Execute));
    }

    /** `apply_control_v1`: available while admissions are full. */
    method ApplyControlV1(envelope: ControlEnvelope) returns (r: Result<()>)
      requires Valid(config, State())
      modifies this`admissions
      ensures Valid(config, State())
      ensures old(Controlled(config, State(), envelope)) == Step(State(), r)
    {
      var control := envelope.control;
      var id := control.invocation;
      CallKeepsValid(config, State(), ControlCall(envelope));
      if control.schema != 1 { return Err(UnsupportedSchema); }
      if control.generation != config.generation { return Err(StaleGeneration); }
      if envelope.tag != ControlTag(config.key, control) { return Err(Authentication); }
      if id !in admissions { return Err(UnknownInvocation); }
      if admissions[id].cancellationToken != control.cancellationToken { return Err(CancellationTokenMismatch); }
      admissions := admissions[id := admissions[id].(cancelled := true)];
      return Ok(());
    }

    /** `complete`: taken out of one map, then put into the other. */
    method Complete(id: Id) returns (r: Result<()>)
      requires Valid(config, State())
      modifies this
      ensures Valid(config, State())
      ensures old(Completed(State(), id)) == Step(State(), r)
    {
      CallKeepsValid(config, State(), CompleteCall(id));
      if id !in admissions { return Err(UnknownInvocation); }
      var state := admissions[id];
      admissions := admissions - {id};
      completed := completed[id := state.hash];
      return Ok(());
    }

    /** `dispatch_v1`: the dispatcher runs exactly when the admission says so, and a
        terminal dispatch leaves the invocation completed. */
    method DispatchV1(envelope: Envelope, now: nat, terminal: bool) returns (r: Result<Receipt>, ran: bool)
      requires Valid(config, State())
      modifies this
      ensures Valid(config, State())
      ensures var admitted := old(Admit(config, State(), envelope, now));
              && r == admitted.result
              && ran == (r.Ok? && r.value.disposition == Execute)
              && State() == if ran && terminal then Completed(admitted.state, envelope.request.invocation).state
                            else admitted.state
      ensures ran && terminal ==> envelope.request.invocation in completed
    {
      r := AdmitV1(envelope, now);
      ran := r.Ok? && r.value.disposition == Execute;
      if ran && terminal {
        var done := Complete(envelope.request.invocation);
      }
    }
  }
}
