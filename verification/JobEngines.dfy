/** The job engine as an object: admission, the cancel table, finishing, and cancelling a whole session. */
module JobEngines {
  import opened Prelude
  import opened ReplayLog
  import opened JobModel
  import opened JobStores
  import opened Sessions
  import JobLogStreams
  import C = Capability
  import R = Registry
  import G = Registration
  import Providers
  import D = Discovery
  import Attach
  import S = LogStreaming

  /** What `kill_job` does to the other side of a cancel entry, in the order in which it does it. */
  datatype CancelEffect = Signal(jobId: string) | InterruptCode(jobId: string) | CancelHostCapability(jobId: string)

  datatype CancelEntry = CancelEntry(isCode: bool)

  type CancelTable = map<string, CancelEntry>

  function EffectsOf(id: string, entry: CancelEntry): seq<CancelEffect> {
    [Signal(id)] + if entry.isCode then [InterruptCode(id), CancelHostCapability(id)] else []
  }

  /** The whole of a session cancel on the table: what is left, what was signalled, and how many jobs. */
  datatype Cancelled = Cancelled(table: CancelTable, effects: seq<CancelEffect>, count: nat)

  function KillAll(table: CancelTable, ids: seq<string>): Cancelled
    decreases |ids|
  {
    if ids == [] then Cancelled(table, [], 0)
    else
      var (so, id) := (KillAll(table, ids[..|ids| - 1]), ids[|ids| - 1]);
      if id !in so.table then so
      else Cancelled(so.table - {id}, so.effects + EffectsOf(id, so.table[id]), so.count + 1)
  }

  datatype JobPayload =
    | Command(command: string)
    | Code(code: string, lang: Option<string>)
    | Capability(name: string, params: Providers.Params)

  datatype JobStartRequest = JobStartRequest(sessionId: string, payload: JobPayload, capabilities: seq<string>)

  /** What start learns from outside: base64, the canonical working directory, the sandbox, the spawned process. */
  datatype Surroundings = Surroundings(base64Ok: bool, cwdInside: bool, sandbox: Option<SandboxFault>, spawns: bool)

  datatype SandboxFault = Unavailable | NotApplied

  datatype StartError =
    | SessionGone(id: string)
    | Denied(required: string)
    | Refused(lookup: R.RegistryError)
    | JobCapability(capability: C.CapabilityError)
    | InvalidCodePayload
    | WorkspaceViolation
    | Sandbox(fault: SandboxFault)
    | JobSpawn

  const WASM_COMPONENT := "wasm-component"

  predicate LangOk(lang: Option<string>) {
    lang.None? || lang.value == WASM_COMPONENT
  }

  /** Whether the payload itself is acceptable to a session with these grants. */
  predicate PayloadAdmitted(payload: JobPayload, grants: D.Grants, registry: D.ProviderState, around: Surroundings) {
    match payload
    case Command(_) => C.SetPermits(grants, C.ProcSpawn)
    case Code(_, lang) => (lang.None? || lang.value == "wasm-component") && around.base64Ok
    case Capability(name, params) => D.JobCommand(registry, grants, name, params).Success?
  }

  /** A code job has no process of its own: its sandbox is the runner. */
  predicate Launches(payload: JobPayload, around: Surroundings) {
    around.spawns && (payload.Code? || around.sandbox.None?)
  }

  predicate Admitted(req: JobStartRequest, grants: D.Grants, registry: D.ProviderState, around: Surroundings) {
    && PayloadAdmitted(req.payload, grants, registry, around)
    && around.cwdInside
    && (forall i | 0 <= i < |req.capabilities| :: C.Granted(grants, req.capabilities[i]))
    && Launches(req.payload, around)
  }

  function PayloadRefusal(payload: JobPayload, grants: D.Grants, registry: D.ProviderState, around: Surroundings)
    : Option<StartError>
  {
    match payload
    case Command(_) => if C.SetPermits(grants, C.ProcSpawn) then None else Some(Denied("proc.spawn"))
    case Code(_, lang) => if LangOk(lang) && around.base64Ok then None else Some(InvalidCodePayload)
    case Capability(name, params) =>
      var command := D.JobCommand(registry, grants, name, params);
      if command.Success? then None
      else if command.error.CapabilityDenied? then Some(Denied(command.error.required))
      else Some(Refused(command.error))
  }

  /** Why a live session's request is refused: the first of the checks that fails. */
  function Refusal(req: JobStartRequest, grants: D.Grants, registry: D.ProviderState, around: Surroundings)
    : Option<StartError>
  {
    var payload := PayloadRefusal(req.payload, grants, registry, around);
    var capability := C.FirstRefused(req.capabilities, grants);
    if payload.Some? then payload
    else if !around.cwdInside then Some(WorkspaceViolation)
    else if capability.Some? then Some(JobCapability(capability.value))
    else if !req.payload.Code? && around.sandbox.Some? then Some(Sandbox(around.sandbox.value))
    else if !around.spawns then Some(JobSpawn)
    else None
  }

  /** What each error says of the request: the named check failed and every check before it passed. */
  lemma RefusalNamesTheFault(req: JobStartRequest, grants: D.Grants, registry: D.ProviderState, around: Surroundings)
    ensures var refusal := Refusal(req, grants, registry, around);
            var payload := PayloadAdmitted(req.payload, grants, registry, around);
            var narrowed := forall i | 0 <= i < |req.capabilities| :: C.Granted(grants, req.capabilities[i]);
            && (refusal.None? <==> Admitted(req, grants, registry, around))
            && (refusal.Some? ==>
                  match refusal.value
                  case SessionGone(_) => false
                  case Denied(required) =>
                    !payload && ((req.payload.Command? && required == "proc.spawn") ||
                                 (req.payload.Capability? && required == "tool:" + req.payload.name))
                  case Refused(_) =>
                    !payload && req.payload.Capability? &&
                    (C.Tool(req.payload.name) in grants || C.ProcSpawn in grants)
                  case InvalidCodePayload => !payload && req.payload.Code?
                  case WorkspaceViolation => payload && !around.cwdInside
                  case JobCapability(_) => payload && around.cwdInside && !narrowed
                  case Sandbox(fault) =>
                    payload && around.cwdInside && narrowed && !req.payload.Code? && around.sandbox == Some(fault)
                  case JobSpawn =>
                    payload && around.cwdInside && narrowed && (req.payload.Code? || around.sandbox.None?) && !around.spawns)
  {
    hide C.Granted, C.SetPermits, D.Resolve;
    C.FirstRefusedIs(req.capabilities, grants);
    hide C.FirstRefused;
    if req.payload.Capability? {
      D.DiscoveryAuthorityIsExecutionAuthority(grants, req.payload.name);
      ResolveNeverDenies(registry, req.payload.name, req.payload.params);
    }
  }

  function JobIdText(n: nat): string {
    "j_" + Attach.ToDecimal(n)
  }

  lemma JobIdsAreDistinct(m: nat, n: nat)
    ensures JobIdText(m)[..2] == "j_" && Attach.DigitsValue(JobIdText(m)[2..]) == Some(m)
    ensures JobIdText(m) == JobIdText(n) ==> m == n
  {
    assert JobIdText(m)[2..] == Attach.ToDecimal(m);
    Attach.DecimalRoundTrip(m);
    if JobIdText(m) == JobIdText(n) {
      assert Attach.ToDecimal(m) == JobIdText(m)[2..] == JobIdText(n)[2..] == Attach.ToDecimal(n);
      Attach.DecimalRoundTrip(m);
      Attach.DecimalRoundTrip(n);
    }
  }

  ghost predicate AllMinted(ids: set<string>, next: nat) {
    forall id | id in ids :: exists n | 0 <= n < next :: id == JobIdText(n)
  }

  /** The next id is fresh, and minting it keeps every id in use minted. */
  lemma MintNext(ids: set<string>, next: nat)
    requires AllMinted(ids, next)
    ensures JobIdText(next) !in ids
    ensures AllMinted(ids, next + 1) && AllMinted(ids + {JobIdText(next)}, next + 1)
  {
    hide JobIdText;
    forall n | 0 <= n < next ensures JobIdText(n) != JobIdText(next) {
      JobIdsAreDistinct(n, next);
    }
    forall id | id in ids ensures exists n | 0 <= n < next + 1 :: id == JobIdText(n) {
      var n :| 0 <= n < next && id == JobIdText(n);
    }
  }

  lemma InsertAppends(ix: Indices, id: string, session: string)
    ensures Listed(Inserted(ix, id, session), session) == Listed(ix, session) + [id]
  {
  }

  lemma ResolveNeverDenies(s: D.ProviderState, name: string, params: Providers.Params)
    ensures D.Resolve(s, name, params).Failure? ==> !D.Resolve(s, name, params).error.CapabilityDenied?
  {
    if name in s.tables.catalog && s.tables.catalog[name].providerId in s.providers {
      var (p, local) := (s.providers[s.tables.catalog[name].providerId], s.tables.catalog[name].localName);
      if p.Native? && local in p.descriptors {
        D.BindErrorsAreParseErrors(p.descriptors[local].exec.argsTemplate, params);
      }
    }
  }

  class JobEngine {
    const sessions: SessionStore
    const jobs: JobStore
    const registry: G.ProviderRegistry<Providers.Provider>
    const logByteCap: nat
    var nextId: U64
    var cancels: CancelTable
    /** The history of signals sent to running jobs. */
    ghost var effects: seq<CancelEffect>

    constructor (sessions: SessionStore, jobs: JobStore, registry: G.ProviderRegistry<Providers.Provider>, logByteCap: nat)
      requires jobs.jobs == map[] && jobs.View() == RunOps([])
      ensures this.sessions == sessions && this.jobs == jobs && this.registry == registry && this.logByteCap == logByteCap
      ensures nextId == 1 && cancels == map[] && effects == [] && Valid()
    {
      this.sessions, this.jobs, this.registry, this.logByteCap := sessions, jobs, registry, logByteCap;
      nextId, cancels, effects := 1, map[], [];
    }

    /** The two job indices agree, jobs sit under their own ids, and every id in use was minted here. */
    ghost predicate Valid()
      reads this, jobs
    {
      && Agree(jobs.View())
      && (forall id | id in jobs.jobs :: jobs.jobs[id].id == id)
      && AllMinted(jobs.jobs.Keys, nextId) && AllMinted(cancels.Keys, nextId)
    }

    method RecordSessionAudit(sessionId: string, kind: AuditEventKind)
      modifies if sessionId in sessions.live then {sessions.live[sessionId]} else {}
      ensures sessionId in sessions.live ==>
                sessions.live[sessionId].auditEvents == old(sessions.live[sessionId].auditEvents) + [kind]
    {
      var handle := sessions.Get(sessionId);
      if handle.Some? {
        handle.value.RecordAudit(kind);
      }
    }

    /** Allocates the next id (the counter is 64 bits wide and wraps) and inserts a running job with an empty log. */
    method InsertRunningJob(req: JobStartRequest) returns (id: string, handle: Job)
      requires Valid()
      modifies this`nextId, jobs
      ensures id == JobIdText(old(nextId)) && id !in old(jobs.jobs)
      ensures nextId == (old(nextId) + 1) % 0x1_0000_0000_0000_0000
      ensures fresh(handle) && fresh(handle.replayLog) && handle.id == id && handle.sessionId == req.sessionId
      ensures handle.status == Running && handle.replayLog.View() == NewLog(logByteCap)
      ensures jobs.jobs == old(jobs.jobs)[id := handle]
      ensures jobs.View() == Inserted(old(jobs.View()), id, req.sessionId) && Agree(jobs.View())
      ensures Listed(jobs.View(), req.sessionId) == Listed(old(jobs.View()), req.sessionId) + [id]
      ensures old(nextId) < U64_MAX ==>
                && (forall x | x in jobs.jobs :: jobs.jobs[x].id == x)
                && AllMinted(jobs.jobs.Keys, nextId)
    {
      hide JobIdText, AllMinted, Agree, Inserted;
      MintNext(jobs.jobs.Keys, nextId);
      id := JobIdText(nextId);
      nextId := (nextId + 1) % 0x1_0000_0000_0000_0000;
      var log := new InMemoryReplayLog(logByteCap);
      handle := new Job(id, req.sessionId, log);
      handle.status := Running;
      InsertKeepsAgreement(jobs.View(), id, req.sessionId);
      InsertAppends(jobs.View(), id, req.sessionId);
      jobs.Insert(handle);
      assert jobs.jobs.Keys == old(jobs.jobs).Keys + {id};
    }

    /**
     * Starts a job if the session is live and everything about the request is admitted, and only then: a refused
     * start leaves jobs, ids, cancel table and audit logs as they were.  A started job is running under a fresh id
     * with an empty log, can be cancelled, and is audited.
     */
    method Start(req: JobStartRequest, around: Surroundings) returns (r: Result<string, StartError>)
      requires Valid()
      modifies this`nextId, this`cancels, jobs,
               if req.sessionId in sessions.live then {sessions.live[req.sessionId]} else {}
      ensures r.Success? <==>
                req.sessionId in sessions.live &&
                Admitted(req, sessions.live[req.sessionId].capabilities, registry.View(), around)
      ensures r.Failure? ==>
                Some(r.error) == if req.sessionId !in sessions.live then Some(SessionGone(req.sessionId))
                                 else Refusal(req, sessions.live[req.sessionId].capabilities, registry.View(), around)
      ensures r.Failure? ==> jobs.jobs == old(jobs.jobs) && jobs.View() == old(jobs.View())
                             && nextId == old(nextId) && cancels == old(cancels)
                             && forall s | s in sessions.live ::
                                  sessions.live[s].auditEvents == old(sessions.live[s].auditEvents)
      ensures r.Success? ==>
                && r.value == JobIdText(old(nextId)) && r.value !in old(jobs.jobs) && r.value !in old(cancels)
                && r.value in jobs.jobs && jobs.jobs == old(jobs.jobs)[r.value := jobs.jobs[r.value]]
                && jobs.jobs[r.value].sessionId == req.sessionId && jobs.jobs[r.value].status == Running
                && jobs.jobs[r.value].replayLog.View() == NewLog(logByteCap)
                && cancels == old(cancels)[r.value := CancelEntry(req.payload.Code?)]
                && sessions.live[req.sessionId].auditEvents
                     == old(sessions.live[req.sessionId].auditEvents) + [JobStarted(r.value)]
      ensures old(nextId) < U64_MAX ==> Valid()
    {
      hide Admitted, Refusal, Agree, JobIdText, NewLog, Listed, Inserted, AllMinted;
      var refusal := Refuses(req, around);
      if refusal.Some? {
        return Failure(refusal.value);
      }
      MintNext(jobs.jobs.Keys, nextId);
      MintNext(cancels.Keys, nextId);
      var id, handle := InsertRunningJob(req);
      cancels := cancels[id := CancelEntry(req.payload.Code?)];
      assert cancels.Keys == old(cancels).Keys + {id};
      RecordSessionAudit(req.sessionId, JobStarted(id));
      return Success(id);
    }

    /** The first reason not to start the job, in the order of the checks. */
    method Refuses(req: JobStartRequest, around: Surroundings) returns (refusal: Option<StartError>)
      ensures refusal.None? <==>
                req.sessionId in sessions.live &&
                Admitted(req, sessions.live[req.sessionId].capabilities, registry.View(), around)
      ensures refusal == if req.sessionId !in sessions.live then Some(SessionGone(req.sessionId))
                         else Refusal(req, sessions.live[req.sessionId].capabilities, registry.View(), around)
    {
      hide C.Granted, PayloadAdmitted, PayloadRefusal, C.FirstRefused;
      var session := sessions.Get(req.sessionId);
      if session.None? {
        return Some(SessionGone(req.sessionId));
      }
      var grants := session.value.capabilities;
      refusal := CheckPayload(req.payload, grants, around);
      if refusal.Some? {
        return;
      }
      if !around.cwdInside {
        return Some(WorkspaceViolation);
      }
      var narrowed := C.ValidateJobCapabilities(req.capabilities, grants);
      if narrowed.Failure? {
        return Some(JobCapability(narrowed.error));
      }
      if !req.payload.Code? && around.sandbox.Some? {
        return Some(Sandbox(around.sandbox.value));
      }
      if !around.spawns {
        return Some(JobSpawn);
      }
    }

    /** The payload's own requirement, and for capabilities the lookup of the command. */
    method CheckPayload(payload: JobPayload, grants: D.Grants, around: Surroundings) returns (refusal: Option<StartError>)
      ensures refusal.None? <==> PayloadAdmitted(payload, grants, registry.View(), around)
      ensures refusal == PayloadRefusal(payload, grants, registry.View(), around)
    {
      hide C.SetPermits;
      match payload {
        case Command(_) =>
          if !C.SetPermits(grants, C.ProcSpawn) {
            return Some(Denied("proc.spawn"));
          }
        case Code(_, lang) =>
          if !LangOk(lang) || !around.base64Ok {
            return Some(InvalidCodePayload);
          }
        case Capability(name, params) =>
          if !C.SetPermits(grants, C.Tool(name)) && !C.SetPermits(grants, C.ProcSpawn) {
            return Some(Denied("tool:" + name));
          }
          var state := G.RegistryState(R.Tables(registry.catalog, registry.nameCounts), registry.providers, map[]);
          var resolved := D.Resolve(state, name, params);
          if resolved.Failure? {
            ResolveNeverDenies(state, name, params);
            return Some(Refused(resolved.error));
          }
      }
      return None;
    }

    /** Whoever removes the entry sends the signal; for a code job the interrupt and the host flag follow it. */
    method KillJob(id: string) returns (ok: bool)
      modifies this`cancels, this`effects
      ensures ok <==> id in old(cancels)
      ensures cancels == old(cancels) - {id}
      ensures effects == old(effects) + if ok then EffectsOf(id, old(cancels)[id]) else []
    {
      if id !in cancels {
        assert cancels - {id} == cancels;
        return false;
      }
      var entry := cancels[id];
      cancels := cancels - {id};
      effects := effects + [Signal(id)];
      if entry.isCode {
        effects := effects + [InterruptCode(id)];
        effects := effects + [CancelHostCapability(id)];
      }
      return true;
    }

    method LookupOwned(sessionId: string, id: string) returns (job: Option<Job>)
      ensures job == if id in jobs.jobs && jobs.jobs[id].sessionId == sessionId then Some(jobs.jobs[id]) else None
    {
      job := jobs.Get(id);
      if job.Some? && job.value.sessionId != sessionId {
        job := None;
      }
    }

    /** `None` stands for the not-found error, the same for an unknown job and for another session's. */
    method Cancel(sessionId: string, id: string) returns (ok: Option<bool>)
      modifies this`cancels, this`effects
      ensures ok.None? <==> id !in jobs.jobs || jobs.jobs[id].sessionId != sessionId
      ensures ok.Some? ==> (ok.value <==> id in old(cancels))
      ensures if ok == Some(true)
              then cancels == old(cancels) - {id} && effects == old(effects) + EffectsOf(id, old(cancels)[id])
              else cancels == old(cancels) && effects == old(effects)
    {
      var job := LookupOwned(sessionId, id);
      if job.None? {
        return None;
      }
      var killed := KillJob(id);
      assert !killed ==> cancels == old(cancels);
      return Some(killed);
    }

    method CancelForSession(sessionId: string) returns (n: nat)
      modifies this`cancels, this`effects
      ensures var all := KillAll(old(cancels), Listed(jobs.View(), sessionId));
              n == all.count && cancels == all.table && effects == old(effects) + all.effects
    {
      hide EffectsOf, Listed;
      n := 0;
      var ids := jobs.ListForSession(sessionId);
      var i := 0;
      while i < |ids|
        invariant i <= |ids|
        invariant var so := KillAll(old(cancels), ids[..i]);
                  n == so.count && cancels == so.table && effects == old(effects) + so.effects
      {
        assert ids[..i + 1][..i] == ids[..i];
        var killed := KillJob(ids[i]);
        if killed {
          n := n + 1;
        }
        i := i + 1;
      }
      assert ids[..i] == ids;
    }

    /** Writes the terminal status, wakes the readers, audits if the session is still there, and ends cancellation. */
    method FinishJob(handle: Job, final: JobStatus)
      modifies handle`status, handle.replayLog`wakes, this`cancels,
               if handle.sessionId in sessions.live then {sessions.live[handle.sessionId]} else {}
      ensures handle.status == final
      ensures handle.replayLog.View() == old(handle.replayLog.View()).(wakes := old(handle.replayLog.wakes) + 1)
      ensures handle.sessionId in sessions.live ==>
                sessions.live[handle.sessionId].auditEvents ==
                  old(sessions.live[handle.sessionId].auditEvents) + [JobFinished(handle.id, final)]
      ensures cancels == old(cancels) - {handle.id}
      ensures old(Valid()) ==> Valid()
    {
      hide Agree, JobIdText;
      handle.status := final;
      handle.replayLog.wakes := handle.replayLog.wakes + 1;
      RecordSessionAudit(handle.sessionId, JobFinished(handle.id, final));
      cancels := cancels - {handle.id};
    }

    /** A reader at the requested offset, which may lie beyond the end of the log. */
    method AttachTo(sessionId: string, id: string, fromOffset: U64) returns (stream: Option<JobLogStreams.JobLogStream>)
      ensures stream.Some? <==> id in jobs.jobs && jobs.jobs[id].sessionId == sessionId
      ensures stream.Some? ==> fresh(stream.value) && stream.value.jobId == id && stream.value.View() == S.NewReader(fromOffset)
      ensures stream.Some? ==> stream.value.start == fromOffset && stream.value.cursor == fromOffset
    {
      var job := LookupOwned(sessionId, id);
      if job.None? {
        return None;
      }
      var reader := new JobLogStreams.JobLogStream(id, fromOffset);
      return Some(reader);
    }
  }

  // ---- Cancelling a session ----

  function CountIn(table: CancelTable, ids: seq<string>): nat {
    |set id | id in table && id in ids|
  }

  lemma OneMoreHit(table: CancelTable, front: seq<string>, last: string)
    ensures CountIn(table, front + [last]) == CountIn(table, front) + if last in table && last !in front then 1 else 0
  {
    var (before, after) := (set id | id in table && id in front, set id | id in table && id in front + [last]);
    if last in table && last !in front {
      assert after == before + {last};
    } else {
      assert after == before;
    }
  }

  /** Removes exactly the listed entries, counts each once, and signals exactly those jobs. */
  lemma {:induction false} KillAllIsExact(table: CancelTable, ids: seq<string>)
    ensures KillAll(table, ids).table == table - set id | id in ids
    ensures KillAll(table, ids).count == CountIn(table, ids)
    ensures forall id :: Signal(id) in KillAll(table, ids).effects <==> id in table && id in ids
    decreases |ids|
  {
    if ids == [] {
      assert (set id | id in table && id in ids) == {};
    } else {
      hide CountIn;
      var (front, last) := (ids[..|ids| - 1], ids[|ids| - 1]);
      assert ids == front + [last];
      KillAllIsExact(table, front);
      OneMoreHit(table, front, last);
    }
  }

  function Signals(effects: seq<CancelEffect>, id: string): nat {
    if effects == [] then 0 else Signals(effects[..|effects| - 1], id) + if effects[|effects| - 1] == Signal(id) then 1 else 0
  }

  lemma {:induction false} SignalsAdd(a: seq<CancelEffect>, b: seq<CancelEffect>, id: string)
    ensures Signals(a + b, id) == Signals(a, id) + Signals(b, id)
    decreases |b|
  {
    if b == [] {
      assert a + b == a;
    } else {
      assert (a + b)[..|a + b| - 1] == a + b[..|b| - 1];
      SignalsAdd(a, b[..|b| - 1], id);
    }
  }

  lemma EffectsSignalOnce(id: string, entry: CancelEntry, other: string)
    ensures Signals(EffectsOf(id, entry), other) == if other == id then 1 else 0
  {
    var signal: seq<CancelEffect> := [Signal(id)];
    assert Signals(signal, other) == if other == id then 1 else 0 by {
      assert signal[..0] == [];
    }
    if entry.isCode {
      var rest := [InterruptCode(id), CancelHostCapability(id)];
      assert rest[..1] == [InterruptCode(id)] && rest[..1][..0] == [];
      SignalsAdd(signal, rest, other);
    }
  }

  lemma {:induction false} KillAllSignalsOnce(table: CancelTable, ids: seq<string>, id: string)
    ensures Signals(KillAll(table, ids).effects, id) == if id in table && id in ids then 1 else 0
    decreases |ids|
  {
    if ids != [] {
      hide Signals, EffectsOf;
      var (front, last) := (ids[..|ids| - 1], ids[|ids| - 1]);
      assert ids == front + [last];
      KillAllSignalsOnce(table, front, id);
      KillAllIsExact(table, front);
      var so := KillAll(table, front);
      if last in so.table {
        EffectsSignalOnce(last, so.table[last], id);
        SignalsAdd(so.effects, EffectsOf(last, so.table[last]), id);
      }
    } else {
      assert Signals([], id) == 0;
    }
  }

  /** At `k` stands the job's signal, and nothing for the job before it or behind its own group. */
  predicate SignalledAt(effects: seq<CancelEffect>, id: string, isCode: bool, k: int) {
    var group := if isCode then [Signal(id), InterruptCode(id), CancelHostCapability(id)] else [Signal(id)];
    && 0 <= k && k + |group| <= |effects| && effects[k..k + |group|] == group
    && forall i | 0 <= i < |effects| && !(k <= i < k + |group|) :: effects[i].jobId != id
  }

  lemma EffectsAre(id: string, entry: CancelEntry)
    ensures SignalledAt(EffectsOf(id, entry), id, entry.isCode, 0)
    ensures forall i | 0 <= i < |EffectsOf(id, entry)| :: EffectsOf(id, entry)[i].jobId == id
  {
  }

  lemma SignalledInLonger(a: seq<CancelEffect>, b: seq<CancelEffect>, id: string, isCode: bool, k: int)
    requires SignalledAt(a, id, isCode, k) && forall i | 0 <= i < |b| :: b[i].jobId != id
    ensures SignalledAt(a + b, id, isCode, k)
  {
    var n := if isCode then 3 else 1;
    assert (a + b)[k..k + n] == a[k..k + n];
  }

  lemma SignalledBehind(a: seq<CancelEffect>, b: seq<CancelEffect>, id: string, isCode: bool)
    requires SignalledAt(b, id, isCode, 0) && forall i | 0 <= i < |a| :: a[i].jobId != id
    ensures SignalledAt(a + b, id, isCode, |a|)
  {
    var n := if isCode then 3 else 1;
    assert (a + b)[|a|..|a| + n] == b[0..n];
  }

  /**
   * Cancelling a list, job by job: a listed entry gets its signal once and, if it is a code job, one interrupt and
   * one host flag right behind it; a job that is not listed or not in the table gets nothing.
   */
  lemma {:induction false} KillAllEffectsExactly(table: CancelTable, ids: seq<string>, id: string)
    ensures var effects := KillAll(table, ids).effects;
            if id in table && id in ids
            then exists k :: SignalledAt(effects, id, table[id].isCode, k)
            else forall i | 0 <= i < |effects| :: effects[i].jobId != id
    decreases |ids|
  {
    if ids != [] {
      hide SignalledAt, EffectsOf;
      var (front, last) := (ids[..|ids| - 1], ids[|ids| - 1]);
      assert ids == front + [last];
      KillAllEffectsExactly(table, front, id);
      KillAllIsExact(table, front);
      var so := KillAll(table, front);
      if last in so.table {
        EffectsAre(last, so.table[last]);
        if id == last {
          SignalledBehind(so.effects, EffectsOf(last, so.table[last]), id, so.table[last].isCode);
        } else if id in table && id in front {
          var k :| SignalledAt(so.effects, id, table[id].isCode, k);
          SignalledInLonger(so.effects, EffectsOf(last, so.table[last]), id, table[id].isCode, k);
        }
      }
    }
  }

  /**
   * While the indices agree, cancelling a session signals each of its own cancellable jobs exactly once and no job
   * of any other session, and afterwards none of its jobs can be cancelled again.
   */
  lemma SessionCancelHitsExactlyItsJobs(ix: Indices, table: CancelTable, session: string, id: string)
    requires Agree(ix)
    ensures var all := KillAll(table, Listed(ix, session));
            var own := id in ix.owner && ix.owner[id] == session;
            && Signals(all.effects, id) == (if own && id in table then 1 else 0)
            && (id in all.table <==> id in table && !own)
            && (own && id in table ==> exists k :: SignalledAt(all.effects, id, table[id].isCode, k))
            && (!own ==> forall i | 0 <= i < |all.effects| :: all.effects[i].jobId != id)
            && all.count == |set j | j in table && j in ix.owner && ix.owner[j] == session|
  {
    hide KillAll, Signals, SignalledAt;
    var ids := Listed(ix, session);
    KillAllEffectsExactly(table, ids, id);
    KillAllIsExact(table, ids);
    KillAllSignalsOnce(table, ids, id);
    assert forall j :: j in ids <==> j in ix.owner && ix.owner[j] == session;
    assert (set j | j in table && j in ids) == (set j | j in table && j in ix.owner && ix.owner[j] == session);
  }
}
