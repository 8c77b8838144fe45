/**
 Request sequences run against one store. Ids are assigned from the current
 count, so once a record has been deleted the next create can hand out an id
 that is still in use.
 */
module Scenarios {
  import opened Models
  import opened UserStore

  /** The first request: a create on the empty store. */
  method CreateFirst(validator: Validator) returns (store: Store, first: User)
    requires validator(UserData(0, "A", "B", "a@b.com", "")) == []
    ensures fresh(store) && fresh(first)
    ensures store.Valid() && SequentialIds(store.Records())
    ensures store.users == [first] && first.id == 1
  {
    store := new Store();
    first := new User("A", "B", "a@b.com");
    assert validator(first.Data()) == [];
    var r := store.Create(first, validator);
  }

  /** The second request: another create, which is given id 2. */
  method CreateTwice(validator: Validator) returns (store: Store, first: User, second: User)
    requires validator(UserData(0, "A", "B", "a@b.com", "")) == []
    requires validator(UserData(0, "C", "D", "c@d.com", "")) == []
    ensures fresh(store) && fresh(first) && fresh(second)
    ensures store.Valid() && store.users == [first, second]
    ensures first.id == 1 && second.id == 2
  {
    store, first := CreateFirst(validator);
    second := new User("C", "D", "c@d.com");
    assert validator(second.Data()) == [];
    var r := store.Create(second, validator);
  }

  /** The third request: the delete of id 1. */
  method CreateTwiceDeleteFirst(validator: Validator) returns (store: Store, first: User, second: User)
    requires validator(UserData(0, "A", "B", "a@b.com", "")) == []
    requires validator(UserData(0, "C", "D", "c@d.com", "")) == []
    ensures fresh(store) && fresh(first) && fresh(second)
    ensures store.Valid() && store.users == [second]
    ensures first.id == 1 && second.id == 2
  {
    store, first, second := CreateTwice(validator);
    assert store.Records()[0].id == 1;
    FirstMatchUnique(store.Records(), 1, 0);
    var r := store.Delete(1);
  }

  /**
   Two creates, a delete of id 1 and one more create: the last create is
   given id 2 (the count is 1 again), so two stored records share id 2, and a
   lookup of id 2 finds the older one rather than the record just created.
   */
  method DuplicateIdAfterDelete(validator: Validator) returns (store: Store, first: User, second: User, third: User)
    requires validator(UserData(0, "A", "B", "a@b.com", "")) == []
    requires validator(UserData(0, "C", "D", "c@d.com", "")) == []
    requires validator(UserData(0, "E", "F", "e@f.com", "")) == []
    ensures store.users == [second, third] && second != third
    ensures first.id == 1 && second.id == 2 && third.id == 2
    ensures !UniqueIds(store.Records())
    ensures store.GetById(2) == OkUser(second)
  {
    store, first, second := CreateTwiceDeleteFirst(validator);
    third := new User("E", "F", "e@f.com");
    var r := store.Create(third, validator);
    assert store.users == [second, third];
    assert store.Records()[0].id == 2 && store.Records()[1].id == 2;
    store.GetByIdFindsFirstMatch(2, 0);
  }

  /**
   On a store whose ids are still 1..n, a created record is given id n + 1,
   ends the listing, and is what a lookup of that id returns.
   */
  method CreateThenGet(store: Store, body: User, validator: Validator) returns (created: Response, fetched: Response)
    requires store.Valid() && body !in store.users
    requires SequentialIds(store.Records())
    requires validator(body.Data()) == []
    modifies store, body
    ensures store.Valid() && SequentialIds(store.Records())
    ensures store.users == old(store.users) + [body]
    ensures body.Data() == old(body.Data()).(id := |store.users|)
    ensures IsFirstMatch(store.Records(), body.id, |store.users| - 1)
    ensures created == Created(Location(body.id), body) && fetched == OkUser(body)
  {
    created := store.Create(body, validator);
    store.GetByIdFindsFirstMatch(body.id, |store.users| - 1);
    fetched := store.GetById(body.id);
  }

  /**
   On a store whose ids are unique, an update through the id of record k
   overwrites that record's text fields in place; a delete through the same
   id then removes it, and the id is no longer found.
   */
  method UpdateThenDelete(store: Store, id: int, k: nat, patch: User, validator: Validator)
    returns (updated: Response, deleted: Response, gone: Response)
    requires store.Valid() && IsFirstMatch(store.Records(), id, k) && UniqueIds(store.Records())
    requires validator(patch.Data()) == []
    modifies store, store.users
    ensures updated == NoContent && deleted == NoContent
    ensures old(store.users[k]).Data() == Overwritten(old(store.Records()[k]), old(patch.Data()))
    ensures store.users == old(store.users[..k] + store.users[k + 1..])
    ensures gone == NotFound(Some(NotFoundMessage(id)))
  {
    FirstMatchUnique(store.Records(), id, k);
    updated := store.Update(id, patch, validator);
    FirstMatchUnique(store.Records(), id, k);
    deleted := store.Delete(id);
    gone := store.GetById(id);
  }

  /**
   The two steps together: create, fetch, update and delete of one record
   leave the listing as it was and the record's id unknown.
   */
  method CreateUpdateDelete(store: Store, body: User, patch: User, validator: Validator)
    returns (created: Response, fetched: Response, updated: Response, deleted: Response, gone: Response)
    requires store.Valid() && body !in store.users && body != patch
    requires SequentialIds(store.Records())
    requires validator(body.Data()) == [] && validator(patch.Data()) == []
    modifies store, store.users, body
    ensures created == Created(Location(body.id), body) && fetched == OkUser(body)
    ensures updated == NoContent && deleted == NoContent
    ensures body.Data() == Overwritten(old(body.Data()), old(patch.Data())).(id := |store.users| + 1)
    ensures store.users == old(store.users)
    ensures gone == NotFound(Some(NotFoundMessage(body.id)))
  {
    created, fetched := CreateThenGet(store, body, validator);
    var k := |store.users| - 1;
    SequentialIdsAreUnique(store.Records());
    updated, deleted, gone := UpdateThenDelete(store, body.id, k, patch, validator);
  }
}
