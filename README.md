# UserManagementApi user store

A Dafny model of the in-memory user store of UserManagementApi, a small
ASP.NET minimal-API service. The store is one process-wide `List<User>` that
starts empty. Five `/users` handlers read and change it:

- **list** returns the list itself.
- **get-by-id** returns the first user whose `Id` matches, or a 404 with the
  text `User with id {id}, was not found!`.
- **create** validates the body, sets its `Id` to the current count plus one,
  appends that same object and answers 201 with `Location: /users/{id}`.
- **update** looks the id up first. An unknown id is a bare 404 whatever the
  body is. Then it validates the body (400 on failure). Otherwise it copies
  `FirstName`, `LastName`, `Email` and `Department` into the stored object
  in place and answers 204.
- **delete** looks the id up (a bare 404 when absent), removes that object
  from the list and answers 204.

How the files map to the source:

- `models.dfy` (module `Models`): `User` is a class with five mutable fields,
  matching the C# class with public setters. `UserData` is a value snapshot
  of those fields.
- `store.dfy` (module `UserStore`): `Store` is a class holding `users:
  seq<User>`. There is one method per state-changing handler and one
  function per read-only handler. `GetById`, `Create`, `Update` and
  `Delete` return a `Response` that mirrors the framework's `Results.*`
  values; `ListUsers` returns the stored sequence, as the source handler
  returns the list itself.
- `decimal.dfy` (module `Decimal`): renders an `int` in decimal, as C#
  string interpolation writes it under the invariant culture (an ASCII `-`
  for negative numbers). This text goes into the not-found message
  and the `Location` value. Rendering is proved injective, so distinct ids
  give distinct texts.
- `scenarios.dfy` (module `Scenarios`): sequences of requests proved against
  the store's contracts.

The proofs cover two behaviours of id assignment:

- While nothing has been deleted, ids stay `1..n` in insertion order, so they
  are unique and increasing.
- Ids come from the current count, so after a delete the next create can
  reuse an id still in use. Two creates, a delete of id 1 and a third create
  leave two stored records with id 2, and a lookup of id 2 returns the older
  one (`Scenarios.DuplicateIdAfterDelete`).

The three names carry only C#'s `required` modifier and no validation
attributes, so an empty string is accepted. What the validation library
checks is a parameter of the model.

## Model

| member | source | states |
|---|---|---|
| Models.User.constructor | UserManagementApi/Models/User.cs:3-10 | a new user holds the three given names and the given department (default empty), and its id is 0 until create assigns one |
| UserStore.ValidateUser | UserManagementApi/Program.cs:149-154 | the results are exactly the validator's messages for the body's current values, and the body is valid iff there are none |
| UserStore.FindFirst | UserManagementApi/Program.cs:104 | the search returns the position of the first record carrying the id, or reports that no record carries it |
| UserStore.FirstMatchUnique | UserManagementApi/Program.cs:122 | any position that is the first match is exactly what the search returns |
| UserStore.RemoveFirstAt | UserManagementApi/Program.cs:143 | removing an object whose first occurrence is at k drops exactly position k and keeps the others in order |
| UserStore.RemoveFirst | UserManagementApi/Program.cs:143 | `List.Remove` of an object the list holds removes exactly one occurrence of it (one element fewer, the same multiset less that object); of an object it does not hold, changes nothing |
| UserStore.NotFoundMessage | UserManagementApi/Program.cs:105 | the 404 text is `User with id ` and `, was not found!` around the rendered id, and the id reads back from it |
| UserStore.Location | UserManagementApi/Program.cs:117 | the created location is `/users/` followed by the rendered id, and the id reads back from it |
| UserStore.Overwritten | UserManagementApi/Program.cs:130-133 | the updated record takes every value from the body except its id, which stays the stored one |
| UserStore.SequentialIdsAreUnique | UserManagementApi/Program.cs:115-116 | when record k carries id k + 1, the ids are pairwise distinct and strictly increase in insertion order |
| UserStore.SequentialIdsAppend | UserManagementApi/Program.cs:115-116 | appending a record with id count + 1 keeps the ids at 1..n, and the new record is the first match for its id |
| UserStore.NoMatchAfterRemove | UserManagementApi/Program.cs:140-143 | with unique ids, removing the first record carrying an id leaves no record that carries it |
| UserStore.Store.constructor | UserManagementApi/Program.cs:75 | the store starts empty, holds no object twice, and trivially has ids 1..n |
| UserStore.Store.ListUsers | UserManagementApi/Program.cs:100 | the listing is the stored sequence element by element, in insertion order |
| UserStore.Store.GetById | UserManagementApi/Program.cs:102-106 | the result is the user if and only if some record carries the id; it is the object at the first such position; otherwise it is a 404 with exactly `User with id {id}, was not found!` |
| UserStore.Store.GetByIdFindsFirstMatch | UserManagementApi/Program.cs:104-105 | when position k is the first record carrying the id, the lookup returns exactly the object at k |
| UserStore.Store.Create | UserManagementApi/Program.cs:108-118 | invalid body: 400 with the validator's messages, and neither the list nor the body's id changes; valid body: its id becomes the old count + 1, that same object is appended after all earlier elements, and the result is Created at `/users/{id}`; the ids stay 1..n and unique when they were before, and the new record is the first match for its id |
| UserStore.Store.Update | UserManagementApi/Program.cs:120-136 | an unknown id gives a bare 404 whatever the body; a known id with an invalid body gives 400 with the messages; in both cases nothing changes; otherwise only the four text fields of the first match are overwritten with the body's values, its id and position and every other record stay as they were, and the result is 204 |
| UserStore.Store.Delete | UserManagementApi/Program.cs:138-145 | an unknown id gives a bare 404 and nothing changes; otherwise exactly the first record carrying the id is removed, the rest keep their order, the result is 204, and with unique ids the id is then no longer found |
| Decimal.NatToString | UserManagementApi/Program.cs:105 | the rendering of a natural number is a non-empty string of digits without a leading zero |
| Decimal.IntToString | UserManagementApi/Program.cs:105 | the rendering is non-empty and starts with a minus sign exactly when the number is negative |
| Decimal.NatToStringRoundTrip | UserManagementApi/Program.cs:105 | the digits read back as the number they render |
| Decimal.IntToStringRoundTrip | UserManagementApi/Program.cs:105 | reading an interpolated id back gives the id |
| Decimal.IntToStringInjective | UserManagementApi/Program.cs:117 | distinct ids give distinct interpolated texts, so a `Location` value names one id |
| Scenarios.CreateFirst | UserManagementApi/Program.cs:115-117 | the first create on an empty store gives the body id 1 and stores it alone |
| Scenarios.CreateTwice | UserManagementApi/Program.cs:115-116 | two creates on an empty store give ids 1 and 2, in that order |
| Scenarios.CreateTwiceDeleteFirst | UserManagementApi/Program.cs:140-143 | deleting id 1 after them leaves only the record with id 2 |
| Scenarios.DuplicateIdAfterDelete | UserManagementApi/Program.cs:115 | a third create is then given id 2 again: two distinct stored objects share id 2, the ids are no longer unique, and a lookup of 2 returns the older record |
| Scenarios.CreateThenGet | UserManagementApi/Program.cs:102-118 | on a store with ids 1..n, a created record gets id n + 1, ends the list, and is what a lookup of that id returns |
| Scenarios.UpdateThenDelete | UserManagementApi/Program.cs:120-145 | with unique ids, an update through an id overwrites that record's text fields, the delete that follows removes it, and a later lookup is a 404 |
| Scenarios.CreateUpdateDelete | UserManagementApi/Program.cs:100-145 | create, get, update, delete of one body leave the list as it was, the body carrying the updated text fields and its assigned id, and the id unknown |

## Left out

- Token issuance at `/generate-token` and bearer-token validation (HS256 JSON Web Tokens, RFC 7519) are omitted. A cryptographic library does that work, and expiry depends on the clock.
- The exception-handling and logging middleware, HTTPS redirection, OpenAPI and host start-up are omitted. They are framework plumbing and I/O.
- JSON (de)serialisation and route binding are not modelled. A handler is given the bound `int id` and a `User` object.
- The mapping from `Response` to HTTP status codes and bodies is left to the framework. The model stops at the `Results.*` value.
- Decimal.IntToString: writes the invariant culture's ASCII `-` for a negative id. C# interpolation uses the process culture's negative sign (U+2212 in some cultures), and the process culture is not modelled. This affects only the 404 text for a negative id such as `GET /users/-1`; created ids are at least 1.
- The rules inside the validation library (`Validator.TryValidateObject`) are not modelled. Validation is a parameter that maps a body's field values to its list of messages.
- Concurrent requests on the unlocked shared list are not modelled. Handlers run one after another.
- UserStore.Store.Create: requires that the body is not already stored. The framework gives each request a freshly deserialised object, so the source never meets another case.
- UserStore.Store.Create: ids are unbounded integers. `Count + 1` never wraps in 32 bits, because a `List` cannot hold `int.MaxValue` elements.
- UserStore.Store.ListUsers: returns the stored sequence as a value. Callers of the C# handler get the live list object and could change it later.
