/** Membership records and the read-only queries over the registry's table
    (index.js:7-12 and the filter of the list-active handler, index.js:57). */
module Members {

  datatype Option<+T> = None | Some(value: T)

  /** One membership record. The table is keyed by `email` (case-sensitive). */
  datatype Member = Member(name: string, email: string, startDate: string, isActive: bool)

  /** A field of a JSON request body: absent, or present with a string value. */
  type Field = Option<string>

  /** A field passes the handlers' `!field` test: it is present and not the empty string. */
  predicate Given(f: Field) {
    f.Some? && f.value != ""
  }

  /** Some stored record carries this email. */
  predicate EmailTaken(ms: seq<Member>, email: string) {
    exists i | 0 <= i < |ms| :: ms[i].email == email
  }

  /** Index `i` holds the first record (in insertion order) carrying `email`. */
  predicate FirstWith(ms: seq<Member>, email: string, i: int) {
    0 <= i < |ms| && ms[i].email == email && forall j | 0 <= j < i :: ms[j].email != email
  }

  /** No two stored records share an email. */
  predicate UniqueEmails(ms: seq<Member>) {
    forall i, j | 0 <= i < j < |ms| :: ms[i].email != ms[j].email
  }

  /** Where `members.find(m => m.email === email)` stops: the position of the
      first record whose email is exactly `email`, or None when none is. */
  function FindIndex(ms: seq<Member>, email: string): (r: Option<nat>)
    ensures r.None? <==> !EmailTaken(ms, email)
    ensures r.Some? ==> FirstWith(ms, email, r.value)
  {
    if ms == [] then None
    else if ms[0].email == email then Some(0)
    else match FindIndex(ms[1..], email)
      case None =>
        assert forall i | 1 <= i < |ms| :: ms[i] == ms[1..][i - 1];
        None
      case Some(j) => Some(j + 1)
  }

  /** `findMemberByEmail`: the first record with exactly this email, if any. */
  function FindMemberByEmail(ms: seq<Member>, email: string): (r: Option<Member>)
    ensures r.None? <==> !EmailTaken(ms, email)
    ensures forall i | FirstWith(ms, email, i) :: r == Some(ms[i])
    ensures r.Some? ==> r.value in ms && r.value.email == email
  {
    match FindIndex(ms, email)
    case None => None
    case Some(i) => Some(ms[i])
  }

  /** `members.filter(m => m.isActive)`. */
  function Active(ms: seq<Member>): (r: seq<Member>)
    ensures |r| <= |ms|
  {
    if ms == [] then []
    else (if ms[0].isActive then [ms[0]] else []) + Active(ms[1..])
  }

  /** Every record the filter keeps is active and stored, and every active
      stored record is kept. */
  lemma {:induction false} ActiveExact(ms: seq<Member>)
    ensures forall k | 0 <= k < |Active(ms)| :: Active(ms)[k].isActive && Active(ms)[k] in ms
    ensures forall i | 0 <= i < |ms| && ms[i].isActive :: ms[i] in Active(ms)
  {
    if ms != [] {
      ActiveExact(ms[1..]);
      var d := if ms[0].isActive then 1 else 0;
      var rest := Active(ms[1..]);
      assert Active(ms) == (if ms[0].isActive then [ms[0]] else []) + rest;
      forall k | d <= k < |Active(ms)| ensures Active(ms)[k] == rest[k - d] { }
      forall i | 1 <= i < |ms| ensures ms[i] == ms[1..][i - 1] { }
    }
  }

  /** The positions, from `lo` on, of the active records, in increasing order. */
  function ActiveIndices(ms: seq<Member>, lo: nat): (ix: seq<nat>)
    requires lo <= |ms|
    ensures forall k | 0 <= k < |ix| :: lo <= ix[k] < |ms|
    ensures forall k, l | 0 <= k < l < |ix| :: ix[k] < ix[l]
    decreases |ms| - lo
  {
    if lo == |ms| then []
    else (if ms[lo].isActive then [lo] else []) + ActiveIndices(ms, lo + 1)
  }

  /** `ActiveIndices` lists exactly the active positions: each one it lists is
      active, and each active position from `lo` on is listed. */
  lemma {:induction false} ActiveIndicesExact(ms: seq<Member>, lo: nat)
    requires lo <= |ms|
    ensures forall k | 0 <= k < |ActiveIndices(ms, lo)| :: ms[ActiveIndices(ms, lo)[k]].isActive
    ensures forall i | lo <= i < |ms| && ms[i].isActive :: i in ActiveIndices(ms, lo)
    decreases |ms| - lo
  {
    if lo < |ms| {
      ActiveIndicesExact(ms, lo + 1);
      var restIx := ActiveIndices(ms, lo + 1);
      var d := if ms[lo].isActive then 1 else 0;
      assert ActiveIndices(ms, lo) == (if ms[lo].isActive then [lo] else []) + restIx;
      forall k | d <= k < |ActiveIndices(ms, lo)| ensures ActiveIndices(ms, lo)[k] == restIx[k - d] { }
    }
  }

  /** The filter keeps the active records in insertion order: its k-th element
      is the record at the k-th active position. */
  lemma {:induction false} ActiveInOrder(ms: seq<Member>, lo: nat)
    requires lo <= |ms|
    ensures |Active(ms[lo..])| == |ActiveIndices(ms, lo)|
    ensures forall k | 0 <= k < |Active(ms[lo..])| :: Active(ms[lo..])[k] == ms[ActiveIndices(ms, lo)[k]]
    decreases |ms| - lo
  {
    if lo < |ms| {
      var s := ms[lo..];
      assert s[0] == ms[lo];
      assert s[1..] == ms[lo + 1..];
      ActiveInOrder(ms, lo + 1);
      var rest, restIx := Active(ms[lo + 1..]), ActiveIndices(ms, lo + 1);
      var d := if ms[lo].isActive then 1 else 0;
      assert Active(s) == (if ms[lo].isActive then [ms[lo]] else []) + rest;
      assert ActiveIndices(ms, lo) == (if ms[lo].isActive then [lo] else []) + restIx;
      forall k | 0 <= k < |Active(s)|
        ensures Active(s)[k] == ms[ActiveIndices(ms, lo)[k]]
      {
        if k >= d {
          assert Active(s)[k] == rest[k - d];
          assert ActiveIndices(ms, lo)[k] == restIx[k - d];
        }
      }
    }
  }

  /** Appending a record extends the filter's result by that record when it is
      active and leaves it as it was otherwise. */
  lemma {:induction false} ActiveAppend(ms: seq<Member>, m: Member)
    ensures Active(ms + [m]) == Active(ms) + (if m.isActive then [m] else [])
  {
    if ms == [] {
      assert [m][1..] == [];
    } else {
      var head := if ms[0].isActive then [ms[0]] else [];
      var tail := if m.isActive then [m] else [];
      assert (ms + [m])[0] == ms[0];
      assert (ms + [m])[1..] == ms[1..] + [m];
      ActiveAppend(ms[1..], m);
      assert Active(ms + [m]) == head + (Active(ms[1..]) + tail);
      assert Active(ms) == head + Active(ms[1..]);
    }
  }

  /** With unique emails, lookup by email finds the one record that has it. */
  lemma UniqueLookup(ms: seq<Member>, i: int)
    requires UniqueEmails(ms)
    requires 0 <= i < |ms|
    ensures FirstWith(ms, ms[i].email, i)
    ensures FindIndex(ms, ms[i].email) == Some(i)
  {
  }
}
