/**
 The legacy user repository: one table keyed by `id`, unconditional writes,
 and every backend error rethrown as a generic "Failed to ..." error.
 */
module LegacyUsers {
  import opened Wrappers
  import opened Values
  import opened Storage
  import opened UserFields

  /** The item legacy `createUser` stores: the user record itself. */
  function UserItem(u: User): Item
  {
    map["id" := Str(u.id), "name" := Str(u.name), "email" := Str(u.email),
        "status" := Str(u.status.Name()), "createdAt" := Str(u.createdAt), "updatedAt" := Str(u.updatedAt)]
  }

  /** The shape every item of the legacy user table has: a string `id`, and a
      `name` and `email` that are strings whenever present. */
  ghost predicate UserShape(item: Item)
  {
    && "id" in item && item["id"].Str?
    && ("name" in item ==> item["name"].Str?)
    && ("email" in item ==> item["email"].Str?)
  }

  /** The legacy user table: keyed by `id`, every item of the legacy shape. */
  ghost predicate UserTable(t: LegacyTable)
  {
    LegacyKeyed(t) && forall id :: id in t ==> UserShape(t[id])
  }

  /** `getAllUsers`: every item of the table, once each, in scan order. */
  method GetAllUsers(t: LegacyTable, b: Backend) returns (r: Result<seq<Item>>, ghost order: seq<string>)
    ensures b.Unreachable? ==> r == Err("Failed to fetch users")
    ensures b.Reachable? ==>
              && r.Ok? && |r.value| == |order| == |t|
              && (forall id :: id in order <==> id in t)
              && (forall i, j :: 0 <= i < j < |order| ==> order[i] != order[j])
              && (forall i :: 0 <= i < |order| ==> order[i] in t && r.value[i] == t[order[i]])
  {
    if b.Unreachable? {
      return Err("Failed to fetch users"), [];
    }
    var ks := ScanKeys(t);
    r := Ok(seq(|ks|, i requires 0 <= i < |ks| => t[ks[i]]));
    order := ks;
  }

  /** `getUserById`: the item keyed by `id`, or null. */
  function GetUserById(t: LegacyTable, b: Backend, id: string): (r: Result<Option<Item>>)
    ensures b.Unreachable? ==> r == Err("Failed to fetch user")
    ensures b.Reachable? ==> r.Ok? && (r.value.Some? <==> id in t)
    ensures b.Reachable? && id in t ==> r.value.value == t[id]
  {
    if b.Unreachable? then Err("Failed to fetch user")
    else if id in t then Ok(Some(t[id]))
    else Ok(None)
  }

  /** `createUser`: an unconditional put of the new user under its fresh id. */
  function CreateUser(t: LegacyTable, b: Backend, id: string, name: string, email: string,
                      createdAt: string, updatedAt: string): (r: Step<string, Result<User>>)
    ensures b.Unreachable? ==> r.table == t && r.result == Err("Failed to create user")
    ensures b.Reachable? ==> r.result == Ok(User(id, name, email, ACTIVE, createdAt, updatedAt))
    ensures b.Reachable? ==> r.table.Keys == t.Keys + {id}
    ensures b.Reachable? ==> forall k :: k in t && k != id ==> r.table[k] == t[k]
    ensures b.Reachable? ==> r.table[id] == UserItem(r.result.value)
  {
    if b.Unreachable? then Step(t, Err("Failed to create user"))
    else
      var user := NewUser(id, name, email, createdAt, updatedAt);
      Step(t[id := UserItem(user)], Ok(user))
  }

  /** `updateUser`: an UpdateItem keyed by `id` that sets the truthy fields
      and `updatedAt`, creating the item when absent, and returns all of the
      item's attributes afterwards. With no truthy field the request is
      rejected and the call fails. */
  function UpdateUser(t: LegacyTable, b: Backend, id: string, input: UpdateInput, now: string): (r: Step<string, Result<Item>>)
    ensures !(b.Reachable? && NamesAField(input)) ==> r.table == t && r.result == Err("Failed to update user")
    ensures b.Reachable? && NamesAField(input) ==> r.table.Keys == t.Keys + {id}
    ensures b.Reachable? && NamesAField(input) ==> forall k :: k in t && k != id ==> r.table[k] == t[k]
    ensures b.Reachable? && NamesAField(input) ==>
              var before := LookupOr(t, id, map["id" := Str(id)]);
              var after := r.table[id];
              && r.result == Ok(after)
              && Get(after, "updatedAt") == Some(Str(now))
              && (Supplied(input.name) ==> Get(after, "name") == Some(Str(input.name.value)))
              && (Supplied(input.email) ==> Get(after, "email") == Some(Str(input.email.value)))
              && (Supplied(input.status) ==> Get(after, "status") == Some(Str(input.status.value)))
              && (!Supplied(input.name) ==> Get(after, "name") == Get(before, "name"))
              && (!Supplied(input.email) ==> Get(after, "email") == Get(before, "email"))
              && (!Supplied(input.status) ==> Get(after, "status") == Get(before, "status"))
              && (forall a :: a !in UPDATABLE ==> Get(after, a) == Get(before, a))
  {
    if b.Unreachable? || !NamesAField(input) then Step(t, Err("Failed to update user"))
    else
      var after := ApplyUpdate(LookupOr(t, id, map["id" := Str(id)]), input, now);
      Step(t[id := after], Ok(after))
  }

  /** `deleteUser`: removes the item keyed by `id` and reports true. */
  function DeleteUser(t: LegacyTable, b: Backend, id: string): (r: Step<string, Result<bool>>)
    ensures b.Unreachable? ==> r.table == t && r.result == Err("Failed to delete user")
    ensures b.Reachable? ==> r.result == Ok(true) && r.table.Keys == t.Keys - {id}
    ensures forall k :: k in r.table ==> k in t && r.table[k] == t[k]
  {
    if b.Unreachable? then Step(t, Err("Failed to delete user"))
    else Step(t - {id}, Ok(true))
  }

  /** Creating and deleting keep the table keyed by `id` and of the legacy
      shape. */
  lemma CreateAndDeleteKeepUserTable(t: LegacyTable, b: Backend, id: string, name: string, email: string,
                                     createdAt: string, updatedAt: string)
    requires UserTable(t)
    ensures UserTable(CreateUser(t, b, id, name, email, createdAt, updatedAt).table)
    ensures UserTable(DeleteUser(t, b, id).table)
  {
  }

  /** Updating keeps the table keyed by `id` and of the legacy shape. */
  lemma UpdateKeepsUserTable(t: LegacyTable, b: Backend, id: string, input: UpdateInput, now: string)
    requires UserTable(t)
    ensures UserTable(UpdateUser(t, b, id, input, now).table)
  {
    var u := UpdateUser(t, b, id, input, now).table;
    if b.Reachable? && NamesAField(input) {
      var before := LookupOr(t, id, map["id" := Str(id)]);
      var after := u[id];
      assert Get(before, "id") == Some(Str(id));
      assert Get(after, "id") == Get(before, "id");
      assert "name" in after ==> after["name"].Str? by {
        if !Supplied(input.name) { assert Get(after, "name") == Get(before, "name"); }
      }
      assert "email" in after ==> after["email"].Str? by {
        if !Supplied(input.email) { assert Get(after, "email") == Get(before, "email"); }
      }
      assert UserShape(after);
    }
  }

  /** A created user reads back as the record `createUser` returned. */
  lemma CreateThenGet(t: LegacyTable, id: string, name: string, email: string,
                      createdAt: string, updatedAt: string)
    ensures var s := CreateUser(t, Reachable, id, name, email, createdAt, updatedAt);
            GetUserById(s.table, Reachable, id)
              == Ok(Some(map["id" := Str(id), "name" := Str(name), "email" := Str(email),
                             "status" := Str("ACTIVE"), "createdAt" := Str(createdAt),
                             "updatedAt" := Str(updatedAt)]))
  {
  }

  /** Updating an id the table does not hold creates an item with only the id,
      the supplied fields and `updatedAt`. */
  lemma UpdateOfMissingUserCreatesPartialItem(t: LegacyTable, id: string, input: UpdateInput, now: string)
    requires id !in t && NamesAField(input)
    ensures var s := UpdateUser(t, Reachable, id, input, now);
            && id in s.table
            && ("name" in s.table[id] <==> Supplied(input.name))
            && ("email" in s.table[id] <==> Supplied(input.email))
            && "createdAt" !in s.table[id]
  {
    var s := UpdateUser(t, Reachable, id, input, now);
    assert Get(s.table[id], "createdAt") == None;
    assert !Supplied(input.name) ==> Get(s.table[id], "name") == None;
    assert !Supplied(input.email) ==> Get(s.table[id], "email") == None;
  }

  /** Deleting twice is deleting once. */
  lemma DeleteIdempotent(t: LegacyTable, id: string)
    ensures var once := DeleteUser(t, Reachable, id);
            DeleteUser(once.table, Reachable, id) == once
  {
  }
}
