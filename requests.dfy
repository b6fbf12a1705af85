/** Rows of the `requests` table and the UPDATE that respond_request runs
    on them. */
module ChatRequests {

  datatype Status = Pending | Accepted | Rejected

  /** One row of the `requests` table; its creation timestamp is left out. */
  datatype Request = Request(id: int, fromId: int, toId: int, status: Status)

  /** The table's ids are positive and strictly increasing in insertion
      order, as AUTOINCREMENT hands them out. */
  predicate AscendingIds(rs: seq<Request>) {
    (forall i :: 0 <= i < |rs| ==> 1 <= rs[i].id) &&
    (forall i, j :: 0 <= i < j < |rs| ==> rs[i].id < rs[j].id)
  }

  /** A row the UPDATE of respond_request touches: the given id, addressed to
      the responder. The current status plays no part. */
  predicate Targets(r: Request, rid: int, responder: int) {
    r.id == rid && r.toId == responder
  }

  /** UPDATE requests SET status = st WHERE id = rid AND to_id = responder. */
  function Respond(rs: seq<Request>, rid: int, responder: int, st: Status): (r: seq<Request>)
    ensures |r| == |rs|
    ensures forall i :: 0 <= i < |rs| ==>
      r[i] == if Targets(rs[i], rid, responder) then rs[i].(status := st) else rs[i]
  {
    if rs == [] then []
    else
      var head := if Targets(rs[0], rid, responder) then rs[0].(status := st) else rs[0];
      [head] + Respond(rs[1..], rid, responder, st)
  }

  /** A response changes no id, sender or recipient, so the ids stay ascending. */
  lemma RespondKeepsRows(rs: seq<Request>, rid: int, responder: int, st: Status)
    ensures forall i :: 0 <= i < |rs| ==>
      Respond(rs, rid, responder, st)[i].id == rs[i].id &&
      Respond(rs, rid, responder, st)[i].fromId == rs[i].fromId &&
      Respond(rs, rid, responder, st)[i].toId == rs[i].toId
    ensures AscendingIds(rs) ==> AscendingIds(Respond(rs, rid, responder, st))
  {
  }

  /** With unique ids a response touches at most one row. */
  lemma RespondAtMostOne(rs: seq<Request>, rid: int, responder: int, st: Status, i: int, j: int)
    requires AscendingIds(rs)
    requires 0 <= i < |rs| && 0 <= j < |rs|
    requires Respond(rs, rid, responder, st)[i] != rs[i]
    requires Respond(rs, rid, responder, st)[j] != rs[j]
    ensures i == j
  {
  }

  /** A response that matches no row (a wrong id, or a request addressed to
      someone else) leaves the table as it was. */
  lemma {:induction false} RespondNoMatch(rs: seq<Request>, rid: int, responder: int, st: Status)
    requires forall i :: 0 <= i < |rs| ==> !Targets(rs[i], rid, responder)
    ensures Respond(rs, rid, responder, st) == rs
  {
    var r := Respond(rs, rid, responder, st);
    assert forall i :: 0 <= i < |rs| ==> r[i] == rs[i];
  }

  /** No pending guard: a second response to the same request overrides the
      first, whatever status the first one set. */
  lemma {:induction false} RespondLastWins(rs: seq<Request>, rid: int, responder: int, s1: Status, s2: Status)
    ensures Respond(Respond(rs, rid, responder, s1), rid, responder, s2) == Respond(rs, rid, responder, s2)
  {
    var once := Respond(rs, rid, responder, s1);
    var twice := Respond(once, rid, responder, s2);
    var direct := Respond(rs, rid, responder, s2);
    forall i | 0 <= i < |rs|
      ensures twice[i] == direct[i]
    {
      assert Targets(once[i], rid, responder) == Targets(rs[i], rid, responder);
    }
  }
}
