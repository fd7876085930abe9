/** The store of live jobs: two indices under one lock, and what the session index lists over whole runs. */
module JobStores {
  import opened Prelude
  import opened JobModel

  /** The session of each stored job, and per session the ids in the order of their insertion. */
  datatype Indices = Indices(owner: map<string, string>, bySession: map<string, seq<string>>)

  datatype StoreOp = Insert(id: string, session: string) | Remove(id: string)

  function Listed(ix: Indices, session: string): seq<string> {
    if session in ix.bySession then ix.bySession[session] else []
  }

  function Without(ids: seq<string>, id: string): seq<string> {
    if ids == [] then [] else (if ids[0] == id then [] else [ids[0]]) + Without(ids[1..], id)
  }

  function Inserted(ix: Indices, id: string, session: string): Indices {
    Indices(ix.owner[id := session], ix.bySession[session := Listed(ix, session) + [id]])
  }

  function Removed(ix: Indices, id: string): Indices {
    if id !in ix.owner then ix
    else
      var session := ix.owner[id];
      Indices(ix.owner - {id},
              if session in ix.bySession then ix.bySession[session := Without(ix.bySession[session], id)] else ix.bySession)
  }

  function Applied(ix: Indices, op: StoreOp): Indices {
    match op
    case Insert(id, session) => Inserted(ix, id, session)
    case Remove(id) => Removed(ix, id)
  }

  function RunOps(ops: seq<StoreOp>): Indices
    decreases |ops|
  {
    if ops == [] then Indices(map[], map[]) else Applied(RunOps(ops[..|ops| - 1]), ops[|ops| - 1])
  }

  class JobStore {
    var jobs: map<string, Job>
    var bySession: map<string, seq<string>>

    ghost function View(): Indices
      reads this
    {
      Indices(map id | id in jobs :: jobs[id].sessionId, bySession)
    }

    constructor ()
      ensures View() == RunOps([]) && jobs == map[]
    {
      jobs, bySession := map[], map[];
    }

    method Insert(job: Job)
      modifies this
      ensures jobs == old(jobs)[job.id := job]
      ensures View() == Inserted(old(View()), job.id, job.sessionId)
    {
      jobs := jobs[job.id := job];
      var ids := if job.sessionId in bySession then bySession[job.sessionId] else [];
      bySession := bySession[job.sessionId := ids + [job.id]];
      assert View().owner == old(View()).owner[job.id := job.sessionId];
    }

    method Get(id: string) returns (job: Option<Job>)
      ensures job == if id in jobs then Some(jobs[id]) else None
    {
      job := if id in jobs then Some(jobs[id]) else None;
    }

    method ListForSession(session: string) returns (ids: seq<string>)
      ensures ids == Listed(View(), session)
    {
      ids := if session in bySession then bySession[session] else [];
    }

    method Remove(id: string) returns (job: Option<Job>)
      modifies this
      ensures job == if id in old(jobs) then Some(old(jobs)[id]) else None
      ensures jobs == old(jobs) - {id}
      ensures View() == Removed(old(View()), id)
    {
      if id !in jobs {
        assert jobs - {id} == jobs;
        return None;
      }
      var handle := jobs[id];
      jobs := jobs - {id};
      if handle.sessionId in bySession {
        bySession := bySession[handle.sessionId := Without(bySession[handle.sessionId], id)];
      }
      assert View().owner == old(View()).owner - {id};
      return Some(handle);
    }
  }

  // ---- Agreement of the two indices ----

  predicate NoDuplicates(ids: seq<string>) {
    forall i, k | 0 <= i < k < |ids| :: ids[i] != ids[k]
  }

  /** Each session lists exactly its own live jobs, each once. */
  ghost predicate Agree(ix: Indices) {
    && (forall session :: NoDuplicates(Listed(ix, session)))
    && (forall session, id :: id in Listed(ix, session) <==> id in ix.owner && ix.owner[id] == session)
  }

  lemma {:induction false} WithoutIs(ids: seq<string>, id: string)
    ensures forall x :: x in Without(ids, id) <==> x in ids && x != id
    ensures NoDuplicates(ids) ==> NoDuplicates(Without(ids, id))
    ensures id !in ids ==> Without(ids, id) == ids
  {
    if ids != [] {
      WithoutIs(ids[1..], id);
      var (head, rest) := (if ids[0] == id then [] else [ids[0]], Without(ids[1..], id));
      assert ids == [ids[0]] + ids[1..];
      assert forall x :: x in head + rest <==> x in head || x in rest;
      if NoDuplicates(ids) {
        assert forall i | 0 <= i < |ids[1..]| :: ids[1..][i] == ids[i + 1];
        assert NoDuplicates(ids[1..]) && ids[0] !in ids[1..];
        assert ids[0] !in rest;
      }
    }
  }

  lemma {:induction false} WithoutAppended(ids: seq<string>, more: seq<string>, id: string)
    ensures Without(ids + more, id) == Without(ids, id) + Without(more, id)
  {
    if ids == [] {
      assert ids + more == more;
    } else {
      assert (ids + more)[1..] == ids[1..] + more;
      WithoutAppended(ids[1..], more, id);
    }
  }

  /** An insert keeps the indices in agreement exactly when no live job has its id; a remove always does. */
  lemma AgreementKeptExactly(ix: Indices, id: string, session: string)
    requires Agree(ix)
    ensures Agree(Inserted(ix, id, session)) <==> id !in ix.owner
    ensures Agree(Removed(ix, id))
  {
    InsertKeepsAgreement(ix, id, session);
    RemoveKeepsAgreement(ix, id);
  }

  lemma InsertKeepsAgreement(ix: Indices, id: string, session: string)
    requires Agree(ix)
    ensures Agree(Inserted(ix, id, session)) <==> id !in ix.owner
  {
    var ix' := Inserted(ix, id, session);
    assert Listed(ix', session) == Listed(ix, session) + [id];
    assert forall other | other != session :: Listed(ix', other) == Listed(ix, other);
    if id in ix.owner {
      var was := ix.owner[id];
      assert id in Listed(ix, was);
      if was == session {
        var ids := Listed(ix, session);
        var i :| 0 <= i < |ids| && ids[i] == id;
        assert Listed(ix', session)[i] == Listed(ix', session)[|ids|];
      } else {
        assert id in Listed(ix', was) && ix'.owner[id] != was;
      }
    } else {
      assert id !in Listed(ix, session);
      forall s, x ensures x in Listed(ix', s) <==> x in ix'.owner && ix'.owner[x] == s {
        assert x in Listed(ix, s) <==> x in ix.owner && ix.owner[x] == s;
      }
    }
  }

  lemma RemovedLists(ix: Indices, id: string, session: string)
    requires Agree(ix)
    ensures Listed(Removed(ix, id), session) == Without(Listed(ix, session), id)
  {
    assert id in Listed(ix, session) <==> id in ix.owner && ix.owner[id] == session;
    WithoutIs(Listed(ix, session), id);
  }

  lemma RemoveKeepsAgreement(ix: Indices, id: string)
    requires Agree(ix)
    ensures Agree(Removed(ix, id))
  {
    hide Without;
    var ix' := Removed(ix, id);
    forall s ensures NoDuplicates(Listed(ix', s)) {
      RemovedLists(ix, id, s);
      WithoutIs(Listed(ix, s), id);
    }
    forall s, x ensures x in Listed(ix', s) <==> x in ix'.owner && ix'.owner[x] == s {
      RemovedLists(ix, id, s);
      WithoutIs(Listed(ix, s), id);
      assert x in Listed(ix, s) <==> x in ix.owner && ix.owner[x] == s;
    }
  }

  /** Removing a job right after inserting it under a fresh id leaves every lookup and every listing as before. */
  lemma RemoveUndoesInsert(ix: Indices, id: string, session: string, other: string)
    requires Agree(ix) && id !in ix.owner
    ensures var ix' := Removed(Inserted(ix, id, session), id);
            ix'.owner == ix.owner && Listed(ix', other) == Listed(ix, other)
  {
    var mid := Inserted(ix, id, session);
    InsertKeepsAgreement(ix, id, session);
    RemovedLists(mid, id, other);
    assert id !in Listed(ix, session) && id !in Listed(ix, other);
    WithoutAppended(Listed(ix, session), [id], id);
    WithoutIs(Listed(ix, other), id);
    assert Without([id], id) == [];
    assert Removed(mid, id).owner == ix.owner;
  }

  // ---- Whole runs ----

  predicate RemovedAfter(ops: seq<StoreOp>, i: int, id: string) {
    exists k | i < k < |ops| && k >= 0 :: ops[k] == Remove(id)
  }

  /** Read off the history alone: the ids among the first `n` operations that `session` inserted and nobody removed since. */
  function LiveInserts(ops: seq<StoreOp>, n: nat, session: string): seq<string>
    requires n <= |ops|
  {
    if n == 0 then []
    else
      LiveInserts(ops, n - 1, session) +
      if ops[n - 1].Insert? && ops[n - 1].session == session && !RemovedAfter(ops, n - 1, ops[n - 1].id)
      then [ops[n - 1].id] else []
  }

  /** No insert reuses the id of a job that is still live. */
  predicate FreshInserts(ops: seq<StoreOp>) {
    forall n | 0 <= n < |ops| && ops[n].Insert? :: ops[n].id !in RunOps(ops[..n]).owner
  }

  lemma {:induction false} LiveInsertsAfterInsert(front: seq<StoreOp>, op: StoreOp, n: nat, session: string)
    requires n <= |front| && op.Insert?
    ensures LiveInserts(front + [op], n, session) == LiveInserts(front, n, session)
    decreases n
  {
    if n > 0 {
      LiveInsertsAfterInsert(front, op, n - 1, session);
      RemovedAfterOneMore(front, op, n - 1, front[n - 1].id);
    }
  }

  lemma RemovedAfterOneMore(front: seq<StoreOp>, op: StoreOp, i: nat, id: string)
    requires i < |front|
    ensures RemovedAfter(front + [op], i, id) <==> RemovedAfter(front, i, id) || op == Remove(id)
  {
    var ops := front + [op];
    if RemovedAfter(front, i, id) {
      var k :| i < k < |front| && front[k] == Remove(id);
      assert ops[k] == Remove(id);
    }
    assert ops[|front|] == op;
  }

  lemma {:induction false} LiveInsertsAfterRemove(front: seq<StoreOp>, id: string, n: nat, session: string)
    requires n <= |front|
    ensures LiveInserts(front + [Remove(id)], n, session) == Without(LiveInserts(front, n, session), id)
    decreases n
  {
    if n > 0 {
      LiveInsertsAfterRemove(front, id, n - 1, session);
      RemovedAfterOneMore(front, Remove(id), n - 1, front[n - 1].id);
      var last := if front[n - 1].Insert? && front[n - 1].session == session && !RemovedAfter(front, n - 1, front[n - 1].id)
                  then [front[n - 1].id] else [];
      WithoutAppended(LiveInserts(front, n - 1, session), last, id);
    }
  }

  /**
   * Over any run of removes and of inserts with fresh ids, a session's list is exactly its live jobs in the order
   * they were inserted, without duplicates.
   */
  lemma {:induction false} SessionListsItsLiveJobs(ops: seq<StoreOp>, session: string)
    requires FreshInserts(ops)
    ensures Agree(RunOps(ops))
    ensures Listed(RunOps(ops), session) == LiveInserts(ops, |ops|, session)
    ensures NoDuplicates(LiveInserts(ops, |ops|, session))
    decreases |ops|
  {
    hide Without;
    if ops != [] {
      var (front, op) := (ops[..|ops| - 1], ops[|ops| - 1]);
      assert ops == front + [op];
      FreshFront(ops);
      SessionListsItsLiveJobs(front, session);
      var ix := RunOps(front);
      match op {
        case Insert(id, s) =>
          assert ops[..|front|] == front;
          InsertKeepsAgreement(ix, id, s);
          LiveInsertsAfterInsert(front, op, |front|, session);
          assert !RemovedAfter(ops, |front|, id);
        case Remove(id) =>
          RemoveKeepsAgreement(ix, id);
          RemovedLists(ix, id, session);
          LiveInsertsAfterRemove(front, id, |front|, session);
      }
      assert NoDuplicates(Listed(RunOps(ops), session));
    }
  }

  lemma FreshFront(ops: seq<StoreOp>)
    requires FreshInserts(ops) && ops != []
    ensures FreshInserts(ops[..|ops| - 1])
  {
    hide RunOps;
    var front := ops[..|ops| - 1];
    forall n | 0 <= n < |front| && front[n].Insert? ensures front[n].id !in RunOps(front[..n]).owner {
      assert front[..n] == ops[..n] && front[n] == ops[n];
    }
  }
}
