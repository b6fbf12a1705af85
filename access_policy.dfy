/** The authorization check of send_message: who may write to whom. */
module AccessPolicy {
  import opened ChatRequests

  /** The account exempt from the chat-request requirement, both as sender
      and as recipient. */
  const Privileged: int := 1

  /** The row is a request between `a` and `b`, in either direction. */
  predicate Joins(r: Request, a: int, b: int) {
    (r.fromId == a && r.toId == b) || (r.fromId == b && r.toId == a)
  }

  /** The SELECT of send_message finds a row: an accepted request between
      the two users, whoever sent it. */
  predicate HasAcceptedRequest(rs: seq<Request>, a: int, b: int) {
    exists i :: 0 <= i < |rs| && Joins(rs[i], a, b) && rs[i].status == Accepted
  }

  /** The decision of send_message: the privileged account on either side,
      or an accepted request between the two. */
  predicate MaySend(rs: seq<Request>, sender: int, to: int) {
    sender == Privileged || to == Privileged || HasAcceptedRequest(rs, sender, to)
  }

  /** The check as written: start from "not allowed", apply the privileged
      rule, and only if that did not allow, run the query. */
  method IsAllowed(rs: seq<Request>, userId: int, to: int) returns (allowed: bool)
    ensures allowed <==> (
      || userId == Privileged
      || to == Privileged
      || exists i :: 0 <= i < |rs| && rs[i].status == Accepted &&
           ((rs[i].fromId == userId && rs[i].toId == to) || (rs[i].fromId == to && rs[i].toId == userId)))
    ensures allowed == MaySend(rs, userId, to)
  {
    allowed := false;
    if userId == Privileged || to == Privileged {
      allowed := true;
    }
    if !allowed {
      if HasAcceptedRequest(rs, userId, to) {
        allowed := true;
      }
    }
  }

  /** The decision does not depend on who writes to whom. */
  lemma MaySendSymmetric(rs: seq<Request>, a: int, b: int)
    ensures MaySend(rs, a, b) == MaySend(rs, b, a)
  {
  }

  /** The accepted rows of a table, in order. */
  function AcceptedRows(rs: seq<Request>): (r: seq<Request>)
    ensures |r| <= |rs|
    ensures forall k :: 0 <= k < |r| ==> r[k].status == Accepted
  {
    if rs == [] then []
    else if rs[0].status == Accepted then [rs[0]] + AcceptedRows(rs[1..])
    else AcceptedRows(rs[1..])
  }

  /** Pending and rejected rows never authorize: dropping every row that is
      not accepted changes no decision. */
  lemma {:induction false} OnlyAcceptedCounts(rs: seq<Request>, a: int, b: int)
    ensures MaySend(rs, a, b) == MaySend(AcceptedRows(rs), a, b)
  {
    if HasAcceptedRequest(rs, a, b) {
      var i :| 0 <= i < |rs| && Joins(rs[i], a, b) && rs[i].status == Accepted;
      AcceptedRowsKeeps(rs, i);
    }
    if HasAcceptedRequest(AcceptedRows(rs), a, b) {
      var j :| 0 <= j < |AcceptedRows(rs)| && Joins(AcceptedRows(rs)[j], a, b) &&
        AcceptedRows(rs)[j].status == Accepted;
      AcceptedRowsFrom(rs, j);
    }
  }

  /** Every accepted row survives the filter. */
  lemma {:induction false} AcceptedRowsKeeps(rs: seq<Request>, i: int)
    requires 0 <= i < |rs| && rs[i].status == Accepted
    ensures rs[i] in AcceptedRows(rs)
  {
    if i > 0 {
      AcceptedRowsKeeps(rs[1..], i - 1);
    }
  }

  /** Every row the filter keeps comes from the table. */
  lemma {:induction false} AcceptedRowsFrom(rs: seq<Request>, j: int)
    requires 0 <= j < |AcceptedRows(rs)|
    ensures AcceptedRows(rs)[j] in rs
  {
    if rs[0].status == Accepted {
      if j > 0 {
        AcceptedRowsFrom(rs[1..], j - 1);
      }
    } else {
      AcceptedRowsFrom(rs[1..], j);
    }
  }

  /** Filing a request (a new pending row) changes no decision. */
  lemma AddPendingKeepsDecision(rs: seq<Request>, r: Request, a: int, b: int)
    requires r.status == Pending
    ensures MaySend(rs + [r], a, b) == MaySend(rs, a, b)
  {
    if HasAcceptedRequest(rs + [r], a, b) {
      var i :| 0 <= i < |rs + [r]| && Joins((rs + [r])[i], a, b) && (rs + [r])[i].status == Accepted;
      assert i < |rs| && (rs + [r])[i] == rs[i];
    }
    if HasAcceptedRequest(rs, a, b) {
      var i :| 0 <= i < |rs| && Joins(rs[i], a, b) && rs[i].status == Accepted;
      assert (rs + [r])[i] == rs[i];
    }
  }

  /** Accepting a request opens the chat between its two users, in both
      directions. */
  lemma AcceptOpensChat(rs: seq<Request>, rid: int, responder: int, i: int)
    requires 0 <= i < |rs| && Targets(rs[i], rid, responder)
    ensures MaySend(Respond(rs, rid, responder, Accepted), rs[i].fromId, responder)
    ensures MaySend(Respond(rs, rid, responder, Accepted), responder, rs[i].fromId)
  {
    var after := Respond(rs, rid, responder, Accepted);
    assert Joins(after[i], rs[i].fromId, responder) && after[i].status == Accepted;
    assert Joins(after[i], responder, rs[i].fromId);
  }

  /** Accepting never closes a chat. */
  lemma AcceptNeverCloses(rs: seq<Request>, rid: int, responder: int, a: int, b: int)
    requires MaySend(rs, a, b)
    ensures MaySend(Respond(rs, rid, responder, Accepted), a, b)
  {
    var after := Respond(rs, rid, responder, Accepted);
    if HasAcceptedRequest(rs, a, b) {
      var i :| 0 <= i < |rs| && Joins(rs[i], a, b) && rs[i].status == Accepted;
      assert Joins(after[i], a, b) && after[i].status == Accepted;
    }
  }

  /** Rejecting never opens a chat. */
  lemma RejectNeverOpens(rs: seq<Request>, rid: int, responder: int, a: int, b: int)
    requires MaySend(Respond(rs, rid, responder, Rejected), a, b)
    ensures MaySend(rs, a, b)
  {
    var after := Respond(rs, rid, responder, Rejected);
    if HasAcceptedRequest(after, a, b) {
      var i :| 0 <= i < |after| && Joins(after[i], a, b) && after[i].status == Accepted;
      assert Joins(rs[i], a, b) && rs[i].status == Accepted;
    }
  }

  /** Users 2 and 3 cannot chat until 3 accepts the request of 2; then both
      may write; a later rejection by 3 closes the chat again, since nothing
      keeps a resolved request from being answered anew. */
  lemma ChatScenario()
    ensures !MaySend([], 2, 3)
    ensures !MaySend([Request(1, 2, 3, Pending)], 2, 3)
    ensures var accepted := Respond([Request(1, 2, 3, Pending)], 1, 3, Accepted);
      MaySend(accepted, 2, 3) && MaySend(accepted, 3, 2) &&
      !MaySend(Respond(accepted, 1, 3, Rejected), 2, 3)
  {
    var pending := [Request(1, 2, 3, Pending)];
    var accepted := Respond(pending, 1, 3, Accepted);
    AcceptOpensChat(pending, 1, 3, 0);
    var rejected := Respond(accepted, 1, 3, Rejected);
    assert rejected == [Request(1, 2, 3, Rejected)];
  }
}
