/**
 The in-memory user store and the five `/users` handlers that read and change
 it. The store is one ordered list of `User` objects, shared by all requests;
 the handlers are modelled as sequential operations on it. Each request body
 is a `User` object the framework has just deserialised, so it is never an
 object already held by the store.
 */
module UserStore {
  import opened Models
  import opened Decimal

  datatype Option<T> = None | Some(value: T)

  /** What a handler gives back to the framework, which turns it into an HTTP response. */
  datatype Response =
    | OkUser(user: User)                            // 200 with the record
    | Created(location: string, user: User)         // 201 with a Location header
    | NoContent                                     // 204
    | NotFound(message: Option<string>)             // 404, with or without a body
    | BadRequest(errors: seq<string>)               // 400 with the validation results

  /**
   The outcome of validating a body: the messages of the violated
   constraints, computed from the body's field values alone. The constraints
   themselves belong to the validation library and are not modelled.
   */
  type Validator = UserData -> seq<string>

  datatype Validation = Validation(isValid: bool, results: seq<string>)

  /** Runs the validator over the body's current values. */
  function ValidateUser(u: User, validator: Validator): (v: Validation)
    reads u
    ensures v.results == validator(u.Data())
    ensures v.isValid <==> v.results == []
  {
    var results := validator(u.Data());
    Validation(results == [], results)
  }

  /**
   The 404 text of a lookup: a fixed prefix and suffix around the id, which
   reads back from the text.
   */
  function NotFoundMessage(id: int): (m: string)
    ensures |m| > 29 && m[..13] == "User with id " && m[|m| - 16..] == ", was not found!"
    ensures m[13..|m| - 16] == IntToString(id) && ParseInt(m[13..|m| - 16]) == id
  {
    IntToStringRoundTrip(id);
    var m := "User with id " + IntToString(id) + ", was not found!";
    assert m[13..|m| - 16] == IntToString(id);
    m
  }

  /** The `Location` of a created user: `/users/` followed by its id, which reads back from it. */
  function Location(id: int): (l: string)
    ensures |l| > 7 && l[..7] == "/users/"
    ensures l[7..] == IntToString(id) && ParseInt(l[7..]) == id
  {
    IntToStringRoundTrip(id);
    var l := "/users/" + IntToString(id);
    assert l[7..] == IntToString(id);
    l
  }

  /** The field values of a sequence of users, in order. */
  function RecordsOf(s: seq<User>): seq<UserData>
    reads s
  {
    seq(|s|, i reads s requires 0 <= i < |s| => s[i].Data())
  }

  // ----- searching by id -----

  /** `k` is the position of the first record whose id is `id`. */
  predicate IsFirstMatch(rs: seq<UserData>, id: int, k: int) {
    0 <= k < |rs| && rs[k].id == id && forall j :: 0 <= j < k ==> rs[j].id != id
  }

  predicate NoMatch(rs: seq<UserData>, id: int) {
    forall j :: 0 <= j < |rs| ==> rs[j].id != id
  }

  /** The linear search behind `FirstOrDefault(u => u.Id == id)`. */
  function FindFirst(rs: seq<UserData>, id: int): (r: Option<nat>)
    ensures r.Some? ==> IsFirstMatch(rs, id, r.value)
    ensures r.None? ==> NoMatch(rs, id)
  {
    if rs == [] then None
    else if rs[0].id == id then Some(0)
    else match FindFirst(rs[1..], id)
      case None => None
      case Some(k) => Some(k + 1)
  }

  /** There is only one first match. */
  lemma FirstMatchUnique(rs: seq<UserData>, id: int, k: int)
    requires IsFirstMatch(rs, id, k)
    ensures FindFirst(rs, id) == Some(k)
  {
    var found := FindFirst(rs, id);
    assert found.Some? && IsFirstMatch(rs, id, found.value);
  }

  // ----- removal -----

  /**
   `List.Remove`: drops the first element equal to `x`, if there is one, so
   exactly one occurrence of `x` goes and an absent `x` changes nothing.
   */
  function RemoveFirst<T(==)>(s: seq<T>, x: T): (r: seq<T>)
    ensures x !in s ==> r == s
    ensures x in s ==> |r| == |s| - 1 && multiset(r) == multiset(s) - multiset{x}
  {
    if s == [] then []
    else if s[0] == x then
      assert s == [s[0]] + s[1..];
      s[1..]
    else
      assert s == [s[0]] + s[1..];
      [s[0]] + RemoveFirst(s[1..], x)
  }

  lemma {:induction false} RemoveFirstAt<T>(s: seq<T>, x: T, k: nat)
    requires k < |s| && s[k] == x && x !in s[..k]
    ensures RemoveFirst(s, x) == s[..k] + s[k + 1..]
  {
    if k > 0 {
      assert s[0] in s[..k];
      assert s[1..][..k - 1] == s[1..k];
      RemoveFirstAt(s[1..], x, k - 1);
      assert s[1..][k..] == s[k + 1..];
      assert [s[0]] + s[1..k] == s[..k];
    }
  }

  lemma RecordsOfAppend(s: seq<User>, u: User)
    ensures RecordsOf(s + [u]) == RecordsOf(s) + [u.Data()]
  {
    var l, r := RecordsOf(s + [u]), RecordsOf(s) + [u.Data()];
    assert |l| == |r|;
    forall i | 0 <= i < |l|
      ensures l[i] == r[i]
    {
      assert (s + [u])[i] == if i < |s| then s[i] else u;
    }
  }

  lemma RecordsOfRemoveAt(s: seq<User>, k: nat)
    requires k < |s|
    ensures RecordsOf(s[..k] + s[k + 1..]) == RecordsOf(s)[..k] + RecordsOf(s)[k + 1..]
  {
    var rs := RecordsOf(s);
    var l, r := RecordsOf(s[..k] + s[k + 1..]), rs[..k] + rs[k + 1..];
    assert |l| == |r|;
    forall i | 0 <= i < |l|
      ensures l[i] == r[i]
    {
      var i' := if i < k then i else i + 1;
      assert (s[..k] + s[k + 1..])[i] == s[i'];
      assert r[i] == rs[i'];
    }
  }

  ghost predicate Distinct<T>(s: seq<T>) {
    forall i, j :: 0 <= i < j < |s| ==> s[i] != s[j]
  }

  lemma DistinctRemoveAt<T>(s: seq<T>, k: nat)
    requires k < |s| && Distinct(s)
    ensures Distinct(s[..k] + s[k + 1..])
  {
    var t := s[..k] + s[k + 1..];
    forall i, j | 0 <= i < j < |t|
      ensures t[i] != t[j]
    {
      var i' := if i < k then i else i + 1;
      var j' := if j < k then j else j + 1;
      assert t[i] == s[i'] && t[j] == s[j'];
    }
  }

  // ----- ids -----

  /** Element k carries id k + 1: the ids that count-based assignment gives while nothing is deleted. */
  predicate SequentialIds(rs: seq<UserData>) {
    forall k :: 0 <= k < |rs| ==> rs[k].id == k + 1
  }

  predicate UniqueIds(rs: seq<UserData>) {
    forall i, j :: 0 <= i < j < |rs| ==> rs[i].id != rs[j].id
  }

  lemma SequentialIdsAreUnique(rs: seq<UserData>)
    requires SequentialIds(rs)
    ensures UniqueIds(rs)
    ensures forall i, j :: 0 <= i < j < |rs| ==> rs[i].id < rs[j].id
  {
  }

  /** Appending the record numbered `count + 1` keeps the numbering. */
  lemma SequentialIdsAppend(rs: seq<UserData>, d: UserData)
    requires SequentialIds(rs) && d.id == |rs| + 1
    ensures SequentialIds(rs + [d])
    ensures IsFirstMatch(rs + [d], d.id, |rs|)
  {
    var t := rs + [d];
    forall k | 0 <= k < |t|
      ensures t[k].id == k + 1
    {
      if k < |rs| {
        assert t[k] == rs[k];
      }
    }
  }

  /** With unique ids, removing the record that has `id` leaves none that has it. */
  lemma NoMatchAfterRemove(rs: seq<UserData>, id: int, k: nat)
    requires IsFirstMatch(rs, id, k) && UniqueIds(rs)
    ensures NoMatch(rs[..k] + rs[k + 1..], id)
  {
    var t := rs[..k] + rs[k + 1..];
    forall j | 0 <= j < |t|
      ensures t[j].id != id
    {
      if j >= k {
        assert t[j] == rs[j + 1];
      }
    }
  }

  /**
   A stored record after update: the body's values throughout, except that
   the stored record keeps its own id.
   */
  function Overwritten(stored: UserData, body: UserData): (d: UserData)
    ensures d.id == stored.id
    ensures d.(id := body.id) == body
  {
    stored.(firstName := body.firstName, lastName := body.lastName,
            email := body.email, department := body.department)
  }

  class Store {
    var users: seq<User>

    /** The store never holds one object twice. */
    ghost predicate Valid()
      reads this
    {
      Distinct(users)
    }

    /** What the store holds, as values. */
    function Records(): (r: seq<UserData>)
      reads this, users
    {
      RecordsOf(users)
    }

    /** The store starts empty when the process starts. */
    constructor ()
      ensures users == [] && Valid() && SequentialIds(Records())
    {
      users := [];
    }

    /** GET /users: the store's own sequence, in insertion order. */
    function ListUsers(): (r: seq<User>)
      reads this
      ensures |r| == |users| && forall i :: 0 <= i < |r| ==> r[i] == users[i]
    {
      users
    }

    /** GET /users/{id}: the first record with that id, or 404 with a fixed message. */
    function GetById(id: int): (r: Response)
      reads this, users
      ensures r.OkUser? <==> !NoMatch(Records(), id)
      ensures r.OkUser? ==> exists k :: IsFirstMatch(Records(), id, k) && users[k] == r.user
      ensures !r.OkUser? ==> r == NotFound(Some(NotFoundMessage(id)))
    {
      match FindFirst(Records(), id)
      case Some(k) => OkUser(users[k])
      case None => NotFound(Some(NotFoundMessage(id)))
    }

    /** The record a lookup returns is the first one that carries the id. */
    lemma GetByIdFindsFirstMatch(id: int, k: nat)
      requires IsFirstMatch(Records(), id, k)
      ensures GetById(id) == OkUser(users[k])
    {
      FirstMatchUnique(Records(), id, k);
    }

    /**
     POST /users: an invalid body is refused and nothing changes; a valid one
     gets id `count + 1`, is appended as it is (the same object), and is
     reported as created at `/users/{id}`.
     */
    method Create(u: User, validator: Validator) returns (r: Response)
      requires Valid() && u !in users
      modifies this`users, u`id
      ensures Valid()
      ensures var errors := validator(old(u.Data()));
        if errors == [] then
          && users == old(users) + [u]
          && u.Data() == old(u.Data()).(id := old(|users|) + 1)
          && r == Created(Location(old(|users|) + 1), u)
        else
          && users == old(users)
          && u.Data() == old(u.Data())
          && r == BadRequest(errors)
      ensures Records() == if r.Created? then old(Records()) + [u.Data()] else old(Records())
      ensures old(SequentialIds(Records())) ==> SequentialIds(Records()) && UniqueIds(Records())
      ensures old(SequentialIds(Records())) && r.Created? ==> IsFirstMatch(Records(), u.id, |users| - 1)
    {
      var v := ValidateUser(u, validator);
      if !v.isValid {
        return BadRequest(v.results);
      }
      ghost var before := users;
      ghost var records := Records();
      u.id := |users| + 1;
      users := users + [u];
      r := Created(Location(u.id), u);
      assert Records() == records + [u.Data()] by {
        assert RecordsOf(before) == records;
        RecordsOfAppend(before, u);
      }
      if SequentialIds(records) {
        assert SequentialIds(Records()) && UniqueIds(Records()) && IsFirstMatch(Records(), u.id, |users| - 1) by {
          SequentialIdsAppend(records, u.Data());
          SequentialIdsAreUnique(Records());
        }
      }
    }

    /**
     PUT /users/{id}: the lookup comes first, so an unknown id is 404 whatever
     the body; then an invalid body is 400; otherwise the four text fields of
     the found object are overwritten in place and nothing else changes.
     */
    method Update(id: int, updated: User, validator: Validator) returns (r: Response)
      requires Valid()
      modifies users
      ensures users == old(users) && Valid()
      ensures match old(FindFirst(Records(), id))
        case None =>
          r == NotFound(None) && Records() == old(Records())
        case Some(k) =>
          var errors := validator(old(updated.Data()));
          if errors != [] then
            r == BadRequest(errors) && Records() == old(Records())
          else
            && r == NoContent
            && Records() == old(Records())[k := Overwritten(old(Records())[k], old(updated.Data()))]
            && IsFirstMatch(Records(), id, k)
      ensures forall k :: 0 <= k < |users| ==> users[k].id == old(users[k].id)
    {
      var found := FindFirst(Records(), id);
      if found.None? {
        return NotFound(None);
      }
      var v := ValidateUser(updated, validator);
      if !v.isValid {
        return BadRequest(v.results);
      }
      var k := found.value;
      ghost var expected := Records()[k := Overwritten(Records()[k], updated.Data())];
      var user := users[k];
      user.firstName := updated.firstName;
      user.lastName := updated.lastName;
      user.email := updated.email;
      user.department := updated.department;
      r := NoContent;
      assert Records() == expected;
    }

    /**
     DELETE /users/{id}: an unknown id is 404 and nothing changes; otherwise the
     first record with that id is removed and the others keep their order.
     */
    method Delete(id: int) returns (r: Response)
      requires Valid()
      modifies this`users
      ensures Valid()
      ensures match old(FindFirst(Records(), id))
        case None =>
          r == NotFound(None) && users == old(users)
        case Some(k) =>
          && r == NoContent
          && users == old(users[..k] + users[k + 1..])
          && Records() == old(Records()[..k] + Records()[k + 1..])
      ensures r.NoContent? && old(UniqueIds(Records())) ==> NoMatch(Records(), id)
    {
      var found := FindFirst(Records(), id);
      if found.None? {
        return NotFound(None);
      }
      var k := found.value;
      var user := users[k];
      ghost var rest := users[..k] + users[k + 1..];
      ghost var records := Records();
      ghost var remaining := records[..k] + records[k + 1..];
      assert RemoveFirst(users, user) == rest by {
        assert user !in users[..k] by {
          forall j | 0 <= j < k
            ensures users[j] != user
          {
            assert users[j].id == records[j].id;
          }
        }
        RemoveFirstAt(users, user, k);
      }
      assert RecordsOf(rest) == remaining by {
        RecordsOfRemoveAt(users, k);
      }
      assert Distinct(rest) by {
        DistinctRemoveAt(users, k);
      }
      assert UniqueIds(records) ==> NoMatch(remaining, id) by {
        if UniqueIds(records) {
          NoMatchAfterRemove(records, id, k);
        }
      }
      users := RemoveFirst(users, user);
      r := NoContent;
      assert Records() == remaining by {
        forall i | 0 <= i < |users|
          ensures Records()[i] == remaining[i]
        {
          assert Records()[i] == users[i].Data() == old(rest[i].Data());
        }
      }
    }
  }
}
