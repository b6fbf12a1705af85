/** The three tables of the messenger and the request handlers that change
    them: register, send_request, respond_request and send_message. The
    session's user id is passed in as `me`; redirects and flash messages
    become the handlers' outcomes. */
module ChatStore {
  import opened Text
  import opened ChatRequests
  import opened AccessPolicy

  /** One row of the `users` table; the password hash is left out. */
  datatype User = User(id: int, name: string)

  /** One row of the `messages` table; id and timestamp are left out, the
      order of the table stands for the order of creation. */
  datatype Message = Message(fromId: int, toId: int, morse: string)

  datatype RegisterOutcome = MissingCredentials | DuplicateName | Registered(id: int)
  datatype RequestOutcome = SelfRequest | RequestSent(id: int)
  datatype SendOutcome = EmptyMessage | NotAuthorized | Sent

  /** A string PHP treats as false: the empty string and "0". */
  predicate Falsy(s: string) {
    s == "" || s == "0"
  }

  /** Some user already has this name (the UNIQUE column). */
  predicate NameTaken(users: seq<User>, name: string) {
    exists i :: 0 <= i < |users| && users[i].name == name
  }

  /** The message is part of the chat between `a` and `b`. */
  predicate Between(m: Message, a: int, b: int) {
    (m.fromId == a && m.toId == b) || (m.fromId == b && m.toId == a)
  }

  /** The chat view's query: the messages between two users, in both
      directions, in the order they were stored. */
  function Conversation(ms: seq<Message>, a: int, b: int): (r: seq<Message>)
    ensures |r| <= |ms|
    ensures forall k :: 0 <= k < |r| ==> Between(r[k], a, b) && r[k] in ms
    ensures forall k :: 0 <= k < |ms| && Between(ms[k], a, b) ==> ms[k] in r
  {
    if ms == [] then []
    else if Between(ms[0], a, b) then [ms[0]] + Conversation(ms[1..], a, b)
    else Conversation(ms[1..], a, b)
  }

  /** Both users see the same chat. */
  lemma {:induction false} ConversationSymmetric(ms: seq<Message>, a: int, b: int)
    ensures Conversation(ms, a, b) == Conversation(ms, b, a)
  {
    if ms != [] {
      ConversationSymmetric(ms[1..], a, b);
    }
  }

  /** A stored message is appended to the chat of its two users and to no
      other chat. */
  lemma {:induction false} ConversationAppend(ms: seq<Message>, m: Message, a: int, b: int)
    ensures Conversation(ms + [m], a, b) ==
      Conversation(ms, a, b) + (if Between(m, a, b) then [m] else [])
  {
    if ms == [] {
      assert ms + [m] == [m];
    } else {
      assert (ms + [m])[0] == ms[0] && (ms + [m])[1..] == ms[1..] + [m];
      ConversationAppend(ms[1..], m, a, b);
    }
  }

  /** The `users` table: ids positive, ascending and below the next id to
      hand out; names unique (the UNIQUE column). */
  predicate UsersValid(users: seq<User>, nextId: int) {
    1 <= nextId &&
    (forall i :: 0 <= i < |users| ==> 1 <= users[i].id < nextId) &&
    (forall i, j :: 0 <= i < j < |users| ==> users[i].id < users[j].id) &&
    (forall i, j :: 0 <= i < j < |users| ==> users[i].name != users[j].name)
  }

  /** A user with a free name and the next id keeps the table valid. */
  lemma AddUserKeepsValid(users: seq<User>, nextId: int, name: string)
    requires UsersValid(users, nextId) && !NameTaken(users, name)
    ensures UsersValid(users + [User(nextId, name)], nextId + 1)
  {
    var after := users + [User(nextId, name)];
    assert forall i :: 0 <= i < |users| ==> after[i] == users[i];
  }

  class Store {
    var users: seq<User>
    var requests: seq<Request>
    var messages: seq<Message>
    var nextUserId: int
    var nextRequestId: int

    /** Ids are positive, ascending and below the next id to hand out;
        user names are unique. */
    ghost predicate Valid()
      reads this
    {
      UsersValid(users, nextUserId) && 1 <= nextRequestId &&
      AscendingIds(requests) &&
      (forall i :: 0 <= i < |requests| ==> requests[i].id < nextRequestId)
    }

    /** A freshly created database: three empty tables, whose AUTOINCREMENT
        ids start at 1. */
    constructor ()
      ensures Valid()
      ensures users == [] && requests == [] && messages == []
      ensures nextUserId == 1 && nextRequestId == 1
    {
      users, requests, messages := [], [], [];
      nextUserId, nextRequestId := 1, 1;
    }

    /** register: the trimmed name and the password must not be falsy; a
        taken name is refused by the UNIQUE column; otherwise a new user. */
    method Register(name: string, password: string) returns (outcome: RegisterOutcome)
      requires Valid()
      modifies this
      ensures Valid()
      ensures outcome == MissingCredentials <==> Falsy(Trim(name)) || Falsy(password)
      ensures outcome == DuplicateName <==>
        !Falsy(Trim(name)) && !Falsy(password) && NameTaken(old(users), Trim(name))
      ensures outcome.Registered? ==>
        outcome.id == old(nextUserId) && users == old(users) + [User(old(nextUserId), Trim(name))] &&
        nextUserId == old(nextUserId) + 1
      ensures !outcome.Registered? ==> users == old(users) && nextUserId == old(nextUserId)
      ensures requests == old(requests) && messages == old(messages) && nextRequestId == old(nextRequestId)
    {
      var n := Trim(name);
      if Falsy(n) || Falsy(password) {
        return MissingCredentials;
      }
      if NameTaken(users, n) {
        return DuplicateName;
      }
      AddUserKeepsValid(users, nextUserId, n);
      users := users + [User(nextUserId, n)];
      outcome := Registered(nextUserId);
      nextUserId := nextUserId + 1;
    }

    /** send_request: a request to oneself is refused; any other, even a
        repeated one for the same pair, adds a pending row. */
    method SendRequest(me: int, to: int) returns (outcome: RequestOutcome)
      requires Valid()
      modifies this
      ensures Valid()
      ensures to == me ==>
        outcome == SelfRequest && requests == old(requests) && nextRequestId == old(nextRequestId)
      ensures to != me ==>
        outcome == RequestSent(old(nextRequestId)) &&
        requests == old(requests) + [Request(old(nextRequestId), me, to, Pending)] &&
        nextRequestId == old(nextRequestId) + 1
      ensures users == old(users) && messages == old(messages) && nextUserId == old(nextUserId)
    {
      if to == me {
        return SelfRequest;
      }
      requests := requests + [Request(nextRequestId, me, to, Pending)];
      outcome := RequestSent(nextRequestId);
      nextRequestId := nextRequestId + 1;
    }

    /** respond_request: "accept" sets the status to accepted, any other
        answer to rejected, on the row with the given id addressed to the
        responder, whatever its status was. */
    method RespondRequest(me: int, rid: int, resp: string)
      requires Valid()
      modifies this
      ensures Valid()
      ensures requests == Respond(old(requests), rid, me, if resp == "accept" then Accepted else Rejected)
      ensures users == old(users) && messages == old(messages)
      ensures nextUserId == old(nextUserId) && nextRequestId == old(nextRequestId)
    {
      var status := if resp == "accept" then Accepted else Rejected;
      RespondKeepsRows(requests, rid, me, status);
      requests := Respond(requests, rid, me, status);
    }

    /** send_message: an empty trimmed body is refused first, then an
        unauthorized send; otherwise exactly one message is stored, with the
        trimmed body as written (it is not checked to be Morse). */
    method SendMessage(me: int, to: int, body: string) returns (outcome: SendOutcome)
      requires Valid()
      modifies this
      ensures Valid()
      ensures outcome == EmptyMessage <==> Trim(body) == ""
      ensures outcome == NotAuthorized <==> Trim(body) != "" && !MaySend(old(requests), me, to)
      ensures outcome == Sent <==> Trim(body) != "" && MaySend(old(requests), me, to)
      ensures messages == if outcome == Sent then old(messages) + [Message(me, to, Trim(body))] else old(messages)
      ensures users == old(users) && requests == old(requests)
      ensures nextUserId == old(nextUserId) && nextRequestId == old(nextRequestId)
    {
      var morse := Trim(body);
      if morse == "" {
        return EmptyMessage;
      }
      var allowed := IsAllowed(requests, me, to);
      if !allowed {
        return NotAuthorized;
      }
      messages := messages + [Message(me, to, morse)];
      outcome := Sent;
    }
  }

  /** On a freshly created database the first account registered gets id 1,
      the privileged account. */
  method FirstAccountIsPrivileged(name: string, password: string) returns (outcome: RegisterOutcome)
    ensures Falsy(Trim(name)) || Falsy(password) ==> outcome == MissingCredentials
    ensures !Falsy(Trim(name)) && !Falsy(password) ==> outcome == Registered(Privileged)
  {
    var db := new Store();
    outcome := db.Register(name, password);
  }
}
