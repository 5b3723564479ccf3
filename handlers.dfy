/** The five request handlers of the membership service (index.js:14-103),
    each as a function from the table before the request to the response and
    the table after it, and the properties that hold across them. */
module Handlers {
  import opened Members

  const FieldsRequired := "Name, email, and start date are required."
  const AlreadyExists := "Membership already exists for this email."
  const NoMembership := "No membership found for this email."
  const StartDateRequired := "New start date is required."
  const RegisteredMessage := "Membership registered successfully."
  const CanceledMessage := "Membership canceled successfully."
  const StartDateUpdatedMessage := "Membership start date updated successfully."

  /** What a handler answers: a status code and its body. */
  datatype Response =
    | Ok(member: Member)                          // 200, the record itself
    | OkMessage(message: string, member: Member)  // 200, `{message, member}`
    | OkList(members: seq<Member>)                // 200, an array of records
    | Created(message: string, member: Member)    // 201, `{message, member}`
    | BadRequest(error: string)                   // 400, `{error}`
    | NotFound(error: string)                     // 404, `{error}`
  {
    function Status(): (code: int) {
      match this
      case Ok(_) => 200
      case OkMessage(_, _) => 200
      case OkList(_) => 200
      case Created(_, _) => 201
      case BadRequest(_) => 400
      case NotFound(_) => 404
    }
  }

  /** A handler's response together with the table it leaves behind. */
  datatype Outcome = Outcome(response: Response, members: seq<Member>)

  /** POST /register. The presence check comes first, then the duplicate
      check (which ignores `isActive`), then the new record is appended. */
  function Register(ms: seq<Member>, name: Field, email: Field, startDate: Field): (r: Outcome)
    ensures !(Given(name) && Given(email) && Given(startDate)) ==>
              r == Outcome(BadRequest(FieldsRequired), ms)
    ensures Given(name) && Given(email) && Given(startDate) && EmailTaken(ms, email.value) ==>
              r == Outcome(BadRequest(AlreadyExists), ms)
    ensures r.response.Created? <==>
              Given(name) && Given(email) && Given(startDate) && !EmailTaken(ms, email.value)
    ensures r.response.Created? ==>
              && |r.members| == |ms| + 1
              && r.members[..|ms|] == ms
              && r.members[|ms|] == Member(name.value, email.value, startDate.value, true)
              && r.response == Created(RegisteredMessage, r.members[|ms|])
  {
    if !Given(name) || !Given(email) || !Given(startDate) then
      Outcome(BadRequest(FieldsRequired), ms)
    else if FindMemberByEmail(ms, email.value).Some? then
      Outcome(BadRequest(AlreadyExists), ms)
    else
      var m := Member(name.value, email.value, startDate.value, true);
      Outcome(Created(RegisteredMessage, m), ms + [m])
  }

  /** GET /members/:email: the first record with that email, or 404. */
  function View(ms: seq<Member>, email: string): (r: Response)
    ensures !EmailTaken(ms, email) ==> r == NotFound(NoMembership)
    ensures forall i | FirstWith(ms, email, i) :: r == Ok(ms[i])
  {
    match FindMemberByEmail(ms, email)
    case None => NotFound(NoMembership)
    case Some(m) => Ok(m)
  }

  /** GET /members: the active records; never an error. */
  function ListActive(ms: seq<Member>): (r: Response)
    ensures r.OkList? && r.Status() == 200
    ensures forall k | 0 <= k < |r.members| :: r.members[k].isActive && r.members[k] in ms
    ensures forall i | 0 <= i < |ms| && ms[i].isActive :: ms[i] in r.members
  {
    ActiveExact(ms);
    OkList(Active(ms))
  }

  /** DELETE /members/:email: a soft cancel of the first matching record. */
  function Cancel(ms: seq<Member>, email: string): (r: Outcome)
    ensures !EmailTaken(ms, email) ==> r == Outcome(NotFound(NoMembership), ms)
    ensures |r.members| == |ms|
    ensures forall i | 0 <= i < |ms| ::
              r.members[i] == if FirstWith(ms, email, i) then ms[i].(isActive := false) else ms[i]
    ensures forall i | FirstWith(ms, email, i) ::
              r.response == OkMessage(CanceledMessage, r.members[i])
  {
    match FindIndex(ms, email)
    case None => Outcome(NotFound(NoMembership), ms)
    case Some(i) =>
      var m := ms[i].(isActive := false);
      Outcome(OkMessage(CanceledMessage, m), ms[i := m])
  }

  /** PUT /members/:email: the presence check on `newStartDate` runs before
      the lookup; on success only the matched record's start date changes. */
  function UpdateStartDate(ms: seq<Member>, email: string, newStartDate: Field): (r: Outcome)
    ensures !Given(newStartDate) ==> r == Outcome(BadRequest(StartDateRequired), ms)
    ensures Given(newStartDate) && !EmailTaken(ms, email) ==> r == Outcome(NotFound(NoMembership), ms)
    ensures |r.members| == |ms|
    ensures forall i | 0 <= i < |ms| ::
              r.members[i] ==
                if Given(newStartDate) && FirstWith(ms, email, i)
                then ms[i].(startDate := newStartDate.value) else ms[i]
    ensures forall i | Given(newStartDate) && FirstWith(ms, email, i) ::
              r.response == OkMessage(StartDateUpdatedMessage, r.members[i])
  {
    if !Given(newStartDate) then
      Outcome(BadRequest(StartDateRequired), ms)
    else match FindIndex(ms, email)
      case None => Outcome(NotFound(NoMembership), ms)
      case Some(i) =>
        var m := ms[i].(startDate := newStartDate.value);
        Outcome(OkMessage(StartDateUpdatedMessage, m), ms[i := m])
  }

  /** One request per route of the service. */
  datatype Request =
    | PostRegister(name: Field, email: Field, startDate: Field)
    | GetMember(emailParam: string)
    | GetMembers
    | DeleteMember(emailParam: string)
    | PutMember(emailParam: string, newStartDate: Field)

  /** Route a request to its handler. */
  function Handle(ms: seq<Member>, req: Request): (o: Outcome) {
    match req
    case PostRegister(name, email, startDate) => Register(ms, name, email, startDate)
    case GetMember(email) => Outcome(View(ms, email), ms)
    case GetMembers => Outcome(ListActive(ms), ms)
    case DeleteMember(email) => Cancel(ms, email)
    case PutMember(email, newStartDate) => UpdateStartDate(ms, email, newStartDate)
  }

  /** The responses to a sequence of requests served one after another, and
      the table they leave. */
  datatype Session = Session(responses: seq<Response>, members: seq<Member>)

  function Replay(ms: seq<Member>, reqs: seq<Request>): (r: Session)
    ensures |r.responses| == |reqs|
    ensures |ms| <= |r.members|
    decreases |reqs|
  {
    if reqs == [] then Session([], ms)
    else
      var o := Handle(ms, reqs[0]);
      var rest := Replay(o.members, reqs[1..]);
      Session([o.response] + rest.responses, rest.members)
  }

  /** How the table may change over time: records are never removed or
      reordered, a record's name and email are never rewritten, and a
      cancelled record never becomes active again. */
  predicate Evolves(before: seq<Member>, after: seq<Member>) {
    && |before| <= |after|
    && forall i | 0 <= i < |before| ::
         && after[i].email == before[i].email
         && after[i].name == before[i].name
         && (after[i].isActive ==> before[i].isActive)
  }

  lemma EvolvesTransitive(a: seq<Member>, b: seq<Member>, c: seq<Member>)
    requires Evolves(a, b) && Evolves(b, c)
    ensures Evolves(a, c)
  {
  }

  /** Every handler keeps the table evolving as described. */
  lemma HandleEvolves(ms: seq<Member>, req: Request)
    ensures Evolves(ms, Handle(ms, req).members)
  {
  }

  /** Every failed request (status 400 or 404) leaves the table untouched. */
  lemma ErrorsChangeNothing(ms: seq<Member>, req: Request)
    requires Handle(ms, req).response.Status() >= 400
    ensures Handle(ms, req).members == ms
  {
  }

  /** Records appended by registration are active. */
  lemma RegisteredActive(ms: seq<Member>, name: Field, email: Field, startDate: Field)
    requires Register(ms, name, email, startDate).response.Created?
    ensures Register(ms, name, email, startDate).response.member.isActive
    ensures Active(Register(ms, name, email, startDate).members) ==
              Active(ms) + [Register(ms, name, email, startDate).response.member]
  {
    var r := Register(ms, name, email, startDate);
    assert r.members == ms + [r.response.member];
    ActiveAppend(ms, r.response.member);
  }

  /** Registration keeps the emails unique: it appends only an email no
      record carries yet. */
  lemma RegisterKeepsUnique(ms: seq<Member>, name: Field, email: Field, startDate: Field)
    requires UniqueEmails(ms)
    ensures UniqueEmails(Register(ms, name, email, startDate).members)
  {
  }

  /** No handler writes an email except by appending a fresh one, so every
      handler keeps the emails unique. */
  lemma HandleKeepsUnique(ms: seq<Member>, req: Request)
    requires UniqueEmails(ms)
    ensures UniqueEmails(Handle(ms, req).members)
  {
  }

  /** Serving any sequence of requests keeps the emails unique. */
  lemma {:induction false} ReplayKeepsUnique(ms: seq<Member>, reqs: seq<Request>)
    requires UniqueEmails(ms)
    ensures UniqueEmails(Replay(ms, reqs).members)
    decreases |reqs|
  {
    if reqs != [] {
      HandleKeepsUnique(ms, reqs[0]);
      ReplayKeepsUnique(Handle(ms, reqs[0]).members, reqs[1..]);
    }
  }

  /** Serving any sequence of requests never removes a record, never changes
      a record's name or email, and never reactivates a cancelled record. */
  lemma {:induction false} ReplayEvolves(ms: seq<Member>, reqs: seq<Request>)
    ensures Evolves(ms, Replay(ms, reqs).members)
    decreases |reqs|
  {
    if reqs != [] {
      var next := Handle(ms, reqs[0]).members;
      HandleEvolves(ms, reqs[0]);
      ReplayEvolves(next, reqs[1..]);
      EvolvesTransitive(ms, next, Replay(ms, reqs).members);
    }
  }

  /** Starting from the empty table, as the process does, the emails are
      unique after any sequence of requests. */
  lemma FromEmptyUnique(reqs: seq<Request>)
    ensures UniqueEmails(Replay([], reqs).members)
  {
    ReplayKeepsUnique([], reqs);
  }

  /** Cancelling twice is the same as cancelling once: same response, same table. */
  lemma CancelIdempotent(ms: seq<Member>, email: string)
    ensures Cancel(Cancel(ms, email).members, email) == Cancel(ms, email)
  {
  }

  /** Setting the same start date twice is the same as setting it once. */
  lemma UpdateStartDateIdempotent(ms: seq<Member>, email: string, newStartDate: Field)
    ensures UpdateStartDate(UpdateStartDate(ms, email, newStartDate).members, email, newStartDate)
            == UpdateStartDate(ms, email, newStartDate)
  {
  }

  /** After a successful registration, a lookup of the new email answers 200
      with exactly the registered record, which is active. */
  lemma RegisterThenView(ms: seq<Member>, name: Field, email: Field, startDate: Field)
    requires Register(ms, name, email, startDate).response.Created?
    ensures View(Register(ms, name, email, startDate).members, email.value)
            == Ok(Member(name.value, email.value, startDate.value, true))
  {
  }

  /** Once an email is registered it can never be registered again, whatever
      requests come after, cancellations included. */
  lemma ReregisterRejected(ms: seq<Member>, name: Field, email: Field, startDate: Field,
                           reqs: seq<Request>, name2: Field, startDate2: Field)
    requires Register(ms, name, email, startDate).response.Created?
    ensures Register(Replay(Register(ms, name, email, startDate).members, reqs).members,
                     name2, email, startDate2).response
            in {BadRequest(FieldsRequired), BadRequest(AlreadyExists)}
    ensures Given(name2) && Given(startDate2) ==>
              Register(Replay(Register(ms, name, email, startDate).members, reqs).members,
                       name2, email, startDate2).response == BadRequest(AlreadyExists)
  {
    var after := Register(ms, name, email, startDate).members;
    ReplayEvolves(after, reqs);
    assert Replay(after, reqs).members[|ms|].email == email.value;
  }

  /** With unique emails, a successful cancel takes the record out of the list
      of active members. */
  lemma CancelDeactivates(ms: seq<Member>, email: string)
    requires UniqueEmails(ms)
    ensures forall k | 0 <= k < |ListActive(Cancel(ms, email).members).members| ::
              ListActive(Cancel(ms, email).members).members[k].email != email
  {
  }

  /** The records and requests of the project's own test suite. */
  const TestEmail := "testuser@example.com"
  const Joined := Member("Test User", TestEmail, "2024-11-25", true)
  const Moved := Member("Test User", TestEmail, "2024-12-01", true)
  const Left := Member("Test User", TestEmail, "2024-12-01", false)
  const TestRequests := [
    PostRegister(Some("Test User"), Some(TestEmail), Some("2024-11-25")),
    GetMember(TestEmail),
    GetMembers,
    PutMember(TestEmail, Some("2024-12-01")),
    DeleteMember(TestEmail),
    GetMember("nonexistent@example.com"),
    PostRegister(Some("Test User"), Some(""), None),
    PostRegister(Some("Test User"), Some(TestEmail), Some("2024-11-25")),
    PostRegister(Some("Another User"), Some(TestEmail), Some("2024-11-25"))]

  /** The first four requests of the test suite, one at a time. */
  lemma TestSuiteFirstSteps()
    ensures Handle([], TestRequests[0]) == Outcome(Created(RegisteredMessage, Joined), [Joined])
    ensures Handle([Joined], TestRequests[1]) == Outcome(Ok(Joined), [Joined])
    ensures Handle([Joined], TestRequests[2]) == Outcome(OkList([Joined]), [Joined])
    ensures Handle([Joined], TestRequests[3]) == Outcome(OkMessage(StartDateUpdatedMessage, Moved), [Moved])
  {
  }

  /** The last five requests of the test suite, one at a time. */
  lemma TestSuiteLastSteps()
    ensures Handle([Moved], TestRequests[4]) == Outcome(OkMessage(CanceledMessage, Left), [Left])
    ensures Handle([Left], TestRequests[5]) == Outcome(NotFound(NoMembership), [Left])
    ensures Handle([Left], TestRequests[6]) == Outcome(BadRequest(FieldsRequired), [Left])
    ensures Handle([Left], TestRequests[7]) == Outcome(BadRequest(AlreadyExists), [Left])
    ensures Handle([Left], TestRequests[8]) == Outcome(BadRequest(AlreadyExists), [Left])
  {
  }

  /** Serving a first request and then the rest. */
  lemma ReplayCons(ms: seq<Member>, req: Request, reqs: seq<Request>)
    ensures Replay(ms, [req] + reqs) ==
            var o := Handle(ms, req);
            Session([o.response] + Replay(o.members, reqs).responses, Replay(o.members, reqs).members)
  {
  }

  /** The test suite from the lookup of an unknown email on. */
  lemma TestSuiteAfterCancel()
    ensures Replay([Left], TestRequests[5..]) == Session([
      NotFound(NoMembership),
      BadRequest(FieldsRequired),
      BadRequest(AlreadyExists),
      BadRequest(AlreadyExists)], [Left])
  {
    TestSuiteLastSteps();
    var q := TestRequests;
    var t8 := [q[8]];
    var t7 := [q[7]] + t8;
    var t6 := [q[6]] + t7;
    assert q[5..] == [q[5]] + t6;
    ReplayCons([Left], q[8], []);
    ReplayCons([Left], q[7], t8);
    ReplayCons([Left], q[6], t7);
    ReplayCons([Left], q[5], t6);
  }

  /** The test suite from the view of the new record on. */
  lemma TestSuiteAfterRegister()
    ensures Replay([Joined], TestRequests[1..]) == Session([
      Ok(Joined),
      OkList([Joined]),
      OkMessage(StartDateUpdatedMessage, Moved),
      OkMessage(CanceledMessage, Left),
      NotFound(NoMembership),
      BadRequest(FieldsRequired),
      BadRequest(AlreadyExists),
      BadRequest(AlreadyExists)], [Left])
  {
    TestSuiteFirstSteps();
    TestSuiteLastSteps();
    TestSuiteAfterCancel();
    var q := TestRequests;
    var t5 := q[5..];
    var t4 := [q[4]] + t5;
    var t3 := [q[3]] + t4;
    var t2 := [q[2]] + t3;
    assert q[1..] == [q[1]] + t2;
    ReplayCons([Moved], q[4], t5);
    ReplayCons([Joined], q[3], t4);
    ReplayCons([Joined], q[2], t3);
    ReplayCons([Joined], q[1], t2);
  }

  /** The run of the project's own test suite, in order: register, view, list,
      change the start date, cancel, look up an unknown email, register with a
      missing field, and register the same email twice more. */
  lemma TestSuiteScenario()
    ensures Replay([], TestRequests) == Session([
      Created(RegisteredMessage, Joined),
      Ok(Joined),
      OkList([Joined]),
      OkMessage(StartDateUpdatedMessage, Moved),
      OkMessage(CanceledMessage, Left),
      NotFound(NoMembership),
      BadRequest(FieldsRequired),
      BadRequest(AlreadyExists),
      BadRequest(AlreadyExists)], [Left])
  {
    TestSuiteFirstSteps();
    TestSuiteAfterRegister();
    var q := TestRequests;
    assert q == [q[0]] + q[1..];
    ReplayCons([], q[0], q[1..]);
  }
}
