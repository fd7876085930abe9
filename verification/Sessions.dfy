/** Sessions and their store: who is authorized, and what the audit log records. */
module Sessions {
  import opened Prelude
  import opened JobModel
  import C = Capability

  datatype AuditEventKind =
    | SessionOpened
    | SessionClosed
    | JobStarted(jobId: string)
    | JobFinished(jobId: string, status: JobStatus)

  datatype SessionError = SessionNotFound(id: string)

  class Session {
    const id: string
    const capabilities: seq<C.RuntimeCapability>
    const capToken: string
    var auditEvents: seq<AuditEventKind>

    constructor (id: string, capabilities: seq<C.RuntimeCapability>, capToken: string)
      ensures this.id == id && this.capabilities == capabilities && this.capToken == capToken && auditEvents == []
    {
      this.id, this.capabilities, this.capToken, auditEvents := id, capabilities, capToken, [];
    }

    method RecordAudit(kind: AuditEventKind)
      modifies this
      ensures auditEvents == old(auditEvents) + [kind]
    {
      auditEvents := auditEvents + [kind];
    }
  }

  datatype SessionOp = Open(id: string, token: string) | Close(id: string)

  /** The credential of each live session, after a run of opens and closes. */
  function Tokens(ops: seq<SessionOp>): map<string, string>
    decreases |ops|
  {
    if ops == [] then map[]
    else Changed(Tokens(ops[..|ops| - 1]), ops[|ops| - 1])
  }

  function Changed(tokens: map<string, string>, op: SessionOp): map<string, string> {
    match op
    case Open(id, token) => tokens[id := token]
    case Close(id) => tokens - {id}
  }

  class SessionStore {
    var live: map<string, Session>

    ghost function View(): map<string, string>
      reads this
    {
      map id | id in live :: live[id].capToken
    }

    constructor ()
      ensures live == map[] && View() == Tokens([])
    {
      live := map[];
    }

    method Open(id: string, capabilities: seq<C.RuntimeCapability>, capToken: string) returns (handle: Session)
      modifies this
      ensures fresh(handle) && handle.id == id && handle.capabilities == capabilities && handle.capToken == capToken
      ensures handle.auditEvents == [SessionOpened]
      ensures live == old(live)[id := handle] && View() == Changed(old(View()), SessionOp.Open(id, capToken))
    {
      handle := new Session(id, capabilities, capToken);
      handle.RecordAudit(SessionOpened);
      live := live[id := handle];
    }

    method Authorize(id: string, presented: string) returns (ok: bool)
      ensures ok <==> id in View() && View()[id] == presented
    {
      var handle := Get(id);
      ok := handle.Some? && handle.value.capToken == presented;
    }

    method Get(id: string) returns (handle: Option<Session>)
      ensures handle == if id in live then Some(live[id]) else None
    {
      handle := if id in live then Some(live[id]) else None;
    }

    method Close(id: string) returns (r: Result<(), SessionError>)
      modifies this, if id in live then {live[id]} else {}
      ensures live == old(live) - {id} && View() == Changed(old(View()), SessionOp.Close(id))
      ensures if id in old(live)
              then r == Success(()) && old(live)[id].auditEvents == old(live[id].auditEvents) + [SessionClosed]
              else r == Failure(SessionNotFound(id))
    {
      if id !in live {
        assert live - {id} == live && View() - {id} == View();
        return Failure(SessionNotFound(id));
      }
      var handle := live[id];
      live := live - {id};
      assert View() == old(View()) - {id};
      handle.RecordAudit(SessionClosed);
      return Success(());
    }
  }

  predicate About(op: SessionOp, id: string) {
    op.id == id
  }

  /** A presented token is accepted exactly when the last thing done with the session was to open it with that token. */
  lemma {:induction false} AuthorizesExactlyAfterLastOpen(ops: seq<SessionOp>, id: string, presented: string)
    ensures (id in Tokens(ops) && Tokens(ops)[id] == presented) <==>
            exists i | 0 <= i < |ops| :: ops[i] == Open(id, presented) && forall k | i < k < |ops| :: !About(ops[k], id)
    decreases |ops|
  {
    if ops != [] {
      var (front, last) := (ops[..|ops| - 1], ops[|ops| - 1]);
      AuthorizesExactlyAfterLastOpen(front, id, presented);
      assert forall k | 0 <= k < |front| :: front[k] == ops[k];
      assert ops[|front|] == last;
    }
  }

  /** With ids opened at most once, a session that was closed never authorizes again, whatever is done later. */
  lemma ClosedIsForGood(ops: seq<SessionOp>, id: string, presented: string, closed: nat)
    requires closed < |ops| && ops[closed] == Close(id)
    requires forall i, k | 0 <= i < k < |ops| && ops[i].Open? && ops[k].Open? :: ops[i].id != ops[k].id
    requires exists i | 0 <= i < closed :: ops[i].Open? && About(ops[i], id)
    ensures !(id in Tokens(ops) && Tokens(ops)[id] == presented)
  {
    AuthorizesExactlyAfterLastOpen(ops, id, presented);
    assert About(ops[closed], id);
  }
}
