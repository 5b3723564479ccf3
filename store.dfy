/** The service's process-wide table (`const members = []`, index.js:8) as an
    object whose handlers update it in place. Each handler is proved against
    the function of the same name in module Handlers. */
module Store {
  import opened Members
  import opened Handlers

  class MemberStore {
    /** The records, in insertion order. */
    var members: seq<Member>

    /** The object invariant: no two records share an email. */
    ghost predicate Valid()
      reads this
    {
      UniqueEmails(members)
    }

    /** The table starts empty when the process starts. */
    constructor ()
      ensures Valid() && members == []
    {
      members := [];
    }

    /** POST /register: validate, reject a taken email, else push a new active
        record onto the end of the table. */
    method Register(name: Field, email: Field, startDate: Field) returns (resp: Response)
      requires Valid()
      modifies this
      ensures Valid()
      ensures Outcome(resp, members) == Handlers.Register(old(members), name, email, startDate)
      ensures resp.Status() == 400 ==> members == old(members)
      ensures resp.Status() == 201 ==> members == old(members) + [resp.member] && resp.member.isActive
    {
      RegisterKeepsUnique(members, name, email, startDate);
      if !Given(name) || !Given(email) || !Given(startDate) {
        return BadRequest(FieldsRequired);
      }
      if FindMemberByEmail(members, email.value).Some? {
        return BadRequest(AlreadyExists);
      }
      var m := Member(name.value, email.value, startDate.value, true);
      members := members + [m];
      resp := Created(RegisteredMessage, m);
    }

    /** GET /members/:email; reads the table only. */
    method View(email: string) returns (resp: Response)
      ensures resp == Handlers.View(members, email)
      ensures resp.Status() == 200 <==> EmailTaken(members, email)
      ensures resp.Ok? ==> resp.member in members && resp.member.email == email
    {
      var found := FindMemberByEmail(members, email);
      if found.None? {
        return NotFound(NoMembership);
      }
      resp := Ok(found.value);
    }

    /** GET /members; reads the table only. The response is always 200 and
        lists exactly the active records, in insertion order. */
    method ListActive() returns (resp: Response)
      ensures resp == Handlers.ListActive(members)
      ensures resp.OkList? && resp.Status() == 200
      ensures forall k | 0 <= k < |resp.members| :: resp.members[k].isActive && resp.members[k] in members
      ensures forall i | 0 <= i < |members| && members[i].isActive :: members[i] in resp.members
      ensures |resp.members| == |ActiveIndices(members, 0)|
      ensures forall k | 0 <= k < |resp.members| :: resp.members[k] == members[ActiveIndices(members, 0)[k]]
    {
      ActiveExact(members);
      ActiveInOrder(members, 0);
      assert members[0..] == members;
      resp := OkList(Active(members));
    }

    /** DELETE /members/:email: clear `isActive` on the matched record. */
    method Cancel(email: string) returns (resp: Response)
      requires Valid()
      modifies this
      ensures Valid()
      ensures Outcome(resp, members) == Handlers.Cancel(old(members), email)
      ensures |members| == |old(members)|
      ensures resp.Status() == 404 ==> members == old(members)
    {
      var found := FindIndex(members, email);
      if found.None? {
        return NotFound(NoMembership);
      }
      var i := found.value;
      var m := members[i].(isActive := false);
      members := members[i := m];
      resp := OkMessage(CanceledMessage, m);
    }

    /** PUT /members/:email: overwrite `startDate` on the matched record. */
    method UpdateStartDate(email: string, newStartDate: Field) returns (resp: Response)
      requires Valid()
      modifies this
      ensures Valid()
      ensures Outcome(resp, members) == Handlers.UpdateStartDate(old(members), email, newStartDate)
      ensures |members| == |old(members)|
      ensures resp.Status() >= 400 ==> members == old(members)
    {
      if !Given(newStartDate) {
        return BadRequest(StartDateRequired);
      }
      var found := FindIndex(members, email);
      if found.None? {
        return NotFound(NoMembership);
      }
      var i := found.value;
      var m := members[i].(startDate := newStartDate.value);
      members := members[i := m];
      resp := OkMessage(StartDateUpdatedMessage, m);
    }
  }

  /** A client of the store: the first steps of the test suite, on a fresh
      object, using only the methods' contracts. */
  method StoreClient() {
    var store := new MemberStore();
    var email := "testuser@example.com";
    var r := store.Register(Some("Test User"), Some(email), Some("2024-11-25"));
    assert r == Created(RegisteredMessage, Member("Test User", email, "2024-11-25", true));
    var again := store.Register(Some("Another User"), Some(email), Some("2024-11-25"));
    assert store.members[0].email == email;
    assert again == BadRequest(AlreadyExists);
    var c := store.Cancel(email);
    assert FirstWith(store.members, email, 0);
    var v := store.View(email);
    assert v == Ok(Member("Test User", email, "2024-11-25", false));
  }
}
