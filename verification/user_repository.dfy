/**
 The single-table user repository: profile rows at `(USER#<id>, PROFILE)`,
 indexed in GSI1 under `EMAIL#<email>`. Reads fill in missing status and
 timestamps; reads that fail fall back to seed data (or to null), writes that
 fail report a generic error.
 */
module UserRepository {
  import opened Wrappers
  import opened Values
  import opened Storage
  import opened KeyCodec
  import opened UserFields

  /** A user as the reads return it. `id`, `name` and `email` are whatever the
      row holds, and may be undefined. */
  datatype UserView = UserView(id: Option<Value>, name: Option<Value>, email: Option<Value>,
                               status: Value, createdAt: Value, updatedAt: Value)

  const ACTIVE_VALUE: Value := Str(ACTIVE.Name())

  /** The view of a user record with every field present. */
  function UserAsView(u: User): UserView
  {
    UserView(Some(Str(u.id)), Some(Str(u.name)), Some(Str(u.email)), Str(u.status.Name()),
             Str(u.createdAt), Str(u.updatedAt))
  }

  /** `v` shows `item` with the read-side defaults: name and email as stored,
      status ACTIVE when missing, each timestamp `now` when missing. */
  ghost predicate Normalized(v: UserView, item: Item, now: string)
  {
    && v.name == Get(item, "name")
    && v.email == Get(item, "email")
    && ("status" in item ==> v.status == item["status"])
    && ("status" !in item ==> v.status == ACTIVE_VALUE)
    && ("createdAt" in item ==> v.createdAt == item["createdAt"])
    && ("createdAt" !in item ==> v.createdAt == Str(now))
    && ("updatedAt" in item ==> v.updatedAt == item["updatedAt"])
    && ("updatedAt" !in item ==> v.updatedAt == Str(now))
  }

  /** Builds the view of a stored item under the given id. */
  function ViewOf(id: Option<Value>, item: Item, now: string): (v: UserView)
    ensures v.id == id && Normalized(v, item, now)
  {
    UserView(id, Get(item, "name"), Get(item, "email"),
             LookupOr(item, "status", ACTIVE_VALUE),
             LookupOr(item, "createdAt", Str(now)),
             LookupOr(item, "updatedAt", Str(now)))
  }

  /** The profile row `createUser` writes for a user. */
  function ProfileRow(u: User): Item
  {
    map["PK" := Str(UserPk(u.id)), "SK" := Str(PROFILE_SK),
        "GSI1PK" := Str(EmailIndexPk(u.email)), "GSI1SK" := Str(UserPk(u.id)),
        "userId" := Str(u.id), "name" := Str(u.name), "email" := Str(u.email),
        "status" := Str(u.status.Name()), "createdAt" := Str(u.createdAt), "updatedAt" := Str(u.updatedAt)]
  }

  /** The scan filter `SK = 'PROFILE'`. */
  predicate IsProfileItem(item: Item)
  {
    "SK" in item && item["SK"] == Str(PROFILE_SK)
  }

  /** The listing's `item.userId || item.id?.replace('USER#', '')`: a truthy
      `userId`, else the `id` attribute with its first `USER#` removed, else
      undefined. A numeric `id` has no `replace`, so the call throws. */
  function ListedId(item: Item): Result<Option<Value>>
  {
    if "userId" in item && Truthy(item["userId"]) then Ok(Some(item["userId"]))
    else if "id" !in item then Ok(None)
    else match item["id"]
      case Str(s) => Ok(Some(Str(RemoveFirst(s, USER_PREFIX))))
      case Num(_) => Err("item.id?.replace is not a function")
  }

  /** The listing throws on some profile row, so the whole scan result is
      discarded. */
  ghost predicate ListingFails(t: Table)
  {
    exists k :: k in t && IsProfileItem(t[k]) && ListedId(t[k]).Err?
  }

  /** Some item of the table is indexed in GSI1 under `EMAIL#<email>`. */
  predicate EmailIndexed(t: Table, email: string)
  {
    exists k :: k in t && IndexedUnder(t[k], EmailIndexPk(email))
  }

  /** The read fallback `mockUsers.find(user => user.id === id) || null`:
      the first seed user with that id. */
  function SeedLookup(seed: seq<UserView>, id: string): (r: Option<UserView>)
    ensures r.None? <==> forall i :: 0 <= i < |seed| ==> seed[i].id != Some(Str(id))
    ensures r.Some? ==> exists i :: 0 <= i < |seed| && seed[i] == r.value && seed[i].id == Some(Str(id))
                          && forall j :: 0 <= j < i ==> seed[j].id != Some(Str(id))
  {
    if |seed| == 0 then None
    else if seed[0].id == Some(Str(id)) then Some(seed[0])
    else
      var rest := SeedLookup(seed[1..], id);
      assert forall i :: 1 <= i < |seed| ==> seed[i] == seed[1..][i - 1];
      if rest.Some? then
        ghost var i :| 0 <= i < |seed[1..]| && seed[1..][i] == rest.value && seed[1..][i].id == Some(Str(id))
                       && forall j :: 0 <= j < i ==> seed[1..][j].id != Some(Str(id));
        assert seed[i + 1] == rest.value;
        rest
      else
        rest
  }

  /** The record the listing makes of a profile row it can normalise. */
  function ListedView(item: Item, now: string): UserView
    requires ListedId(item).Ok?
  {
    ViewOf(ListedId(item).value, item, now)
  }

  /** `r` lists, in order, the rows of `t` at the distinct keys `listed`. */
  ghost predicate ListsRows(t: Table, now: string, r: seq<UserView>, listed: seq<Key>)
  {
    && |r| == |listed|
    && (forall i, j :: 0 <= i < j < |listed| ==> listed[i] != listed[j])
    && (forall i :: 0 <= i < |listed| ==>
          listed[i] in t && ListedId(t[listed[i]]).Ok? && r[i] == ListedView(t[listed[i]], now))
  }

  /** `getAllUsers`: every profile row once, in scan order, normalised; the
      seed list when the backend fails or a row cannot be normalised. */
  method GetAllUsers(t: Table, b: Backend, now: string, seed: seq<UserView>)
    returns (r: seq<UserView>, ghost listed: seq<Key>)
    ensures b.Unreachable? ==> r == seed
    ensures b.Reachable? && ListingFails(t) ==> r == seed
    ensures b.Reachable? && !ListingFails(t) ==>
              && ListsRows(t, now, r, listed)
              && (forall k :: k in listed <==> k in t && IsProfileItem(t[k]))
  {
    if b.Unreachable? {
      return seed, [];
    }
    var ks := ScanKeys(t);
    r, listed := [], [];
    ghost var seen: set<Key> := {};
    var i := 0;
    while i < |ks|
      invariant 0 <= i <= |ks|
      invariant seen == set j | 0 <= j < i :: ks[j]
      invariant ListsRows(t, now, r, listed)
      invariant forall k :: k in listed <==> k in seen && IsProfileItem(t[k])
      invariant forall k :: k in seen && IsProfileItem(t[k]) ==> ListedId(t[k]).Ok?
    {
      var k := ks[i];
      assert k !in seen;
      if IsProfileItem(t[k]) {
        var id := ListedId(t[k]);
        if id.Err? {
          return seed, [];
        }
        r := r + [ListedView(t[k], now)];
        listed := listed + [k];
      }
      seen := seen + {k};
      i := i + 1;
    }
    assert forall k :: k in t ==> k in seen;
  }

  /** `getUserById`: reads only `(USER#<id>, PROFILE)`; null when absent; the
      first matching seed user when the backend fails. */
  function GetUserById(t: Table, b: Backend, id: string, now: string, seed: seq<UserView>): (r: Option<UserView>)
    ensures b.Unreachable? ==> r == SeedLookup(seed, id)
    ensures b.Reachable? ==> (r.Some? <==> ProfileKey(id) in t)
    ensures b.Reachable? && r.Some? ==>
              r.value.id == Some(Str(id)) && Normalized(r.value, t[ProfileKey(id)], now)
  {
    if b.Unreachable? then SeedLookup(seed, id)
    else if ProfileKey(id) !in t then None
    else Some(ViewOf(Some(Str(id)), t[ProfileKey(id)], now))
  }

  /** `attribute_not_exists(PK) AND attribute_not_exists(GSI1PK)`, evaluated
      as DynamoDB evaluates a PutItem condition: against the item stored at
      the target key, if any. */
  predicate CreateCondition(existing: Option<Item>)
  {
    existing.None? || ("PK" !in existing.value && "GSI1PK" !in existing.value)
  }

  /** `createUser`: a conditional put of the new profile row. */
  function CreateUser(t: Table, b: Backend, id: string, name: string, email: string,
                      createdAt: string, updatedAt: string): (r: Step<Key, Result<User>>)
    requires WellKeyed(t)
    ensures r.result.Ok? <==> b.Reachable? && ProfileKey(id) !in t
    ensures r.result.Err? ==> r.table == t && r.result.message == "Failed to create user"
    ensures r.result.Ok? ==> r.result.value == User(id, name, email, ACTIVE, createdAt, updatedAt)
    ensures r.result.Ok? ==> r.table == t[ProfileKey(id) := ProfileRow(r.result.value)]
    ensures WellKeyed(r.table)
  {
    var user := NewUser(id, name, email, createdAt, updatedAt);
    var k := ProfileKey(id);
    var existing := if k in t then Some(t[k]) else None;
    assert k in t ==> Carries(t[k], k);
    if b.Unreachable? || !CreateCondition(existing) then
      Step(t, Err("Failed to create user"))
    else
      Step(t[k := ProfileRow(user)], Ok(user))
  }

  /** `updateUser`: an UpdateItem at `(USER#<id>, PROFILE)` that sets the
      truthy fields and `updatedAt`, creating the item when absent, and
      returns the normalised new item. With no truthy field the request is
      rejected and the call fails. */
  function UpdateUser(t: Table, b: Backend, id: string, input: UpdateInput, now: string): (r: Step<Key, Result<UserView>>)
    ensures !(b.Reachable? && NamesAField(input)) ==> r.table == t && r.result == Err("Failed to update user")
    ensures b.Reachable? && NamesAField(input) ==> r.table.Keys == t.Keys + {ProfileKey(id)}
    ensures b.Reachable? && NamesAField(input) ==> forall k :: k in t && k != ProfileKey(id) ==> r.table[k] == t[k]
    ensures b.Reachable? && NamesAField(input) ==>
              var before := LookupOr(t, ProfileKey(id), KeyItem(ProfileKey(id)));
              var after := r.table[ProfileKey(id)];
              && Get(after, "updatedAt") == Some(Str(now))
              && (Supplied(input.name) ==> Get(after, "name") == Some(Str(input.name.value)))
              && (Supplied(input.email) ==> Get(after, "email") == Some(Str(input.email.value)))
              && (Supplied(input.status) ==> Get(after, "status") == Some(Str(input.status.value)))
              && (!Supplied(input.name) ==> Get(after, "name") == Get(before, "name"))
              && (!Supplied(input.email) ==> Get(after, "email") == Get(before, "email"))
              && (!Supplied(input.status) ==> Get(after, "status") == Get(before, "status"))
              && (forall a :: a !in UPDATABLE ==> Get(after, a) == Get(before, a))
              && r.result.Ok?
              && r.result.value.id == Some(Str(id))
              && Normalized(r.result.value, after, now)
  {
    if b.Unreachable? || !NamesAField(input) then
      Step(t, Err("Failed to update user"))
    else
      var k := ProfileKey(id);
      var after := ApplyUpdate(LookupOr(t, k, KeyItem(k)), input, now);
      Step(t[k := after], Ok(ViewOf(Some(Str(id)), after, now)))
  }

  /** `deleteUser`: an unconditional delete of `(USER#<id>, PROFILE)`. */
  function DeleteUser(t: Table, b: Backend, id: string): (r: Step<Key, Result<bool>>)
    ensures b.Unreachable? ==> r.table == t && r.result == Err("Failed to delete user")
    ensures b.Reachable? ==> r.result == Ok(true)
    ensures b.Reachable? ==> r.table.Keys == t.Keys - {ProfileKey(id)}
    ensures forall k :: k in r.table ==> k in t && r.table[k] == t[k]
  {
    if b.Unreachable? then Step(t, Err("Failed to delete user"))
    else Step(t - {ProfileKey(id)}, Ok(true))
  }

  /** `getUserByEmail`: a Limit-1 query of GSI1 under `EMAIL#<email>`. Which
      row comes back when several match is the backend's choice; any error
      gives null. */
  method GetUserByEmail(t: Table, b: Backend, email: string, now: string) returns (r: Option<UserView>)
    ensures b.Unreachable? ==> r == None
    ensures b.Reachable? ==> (r.Some? <==> EmailIndexed(t, email))
    ensures r.Some? ==> exists k :: k in t && IndexedUnder(t[k], EmailIndexPk(email))
                                    && r.value == ViewOf(Get(t[k], "userId"), t[k], now)
  {
    if b.Unreachable? {
      return None;
    }
    if k :| k in t && IndexedUnder(t[k], EmailIndexPk(email)) {
      r := Some(ViewOf(Get(t[k], "userId"), t[k], now));
    } else {
      r := None;
    }
  }

  // ---------------------------------------------------------------------
  // Properties of the layout and of the operations

  /** A profile row carries its key, passes the listing filter, is indexed
      under its email, and reads back as the user it was written from. */
  lemma ProfileRowRoundTrip(u: User, now: string)
    ensures Carries(ProfileRow(u), ProfileKey(u.id))
    ensures IsProfileItem(ProfileRow(u))
    ensures IndexedUnder(ProfileRow(u), EmailIndexPk(u.email))
    ensures ProfileRow(u)["GSI1SK"] == Str(UserPk(u.id))
    ensures u.id != "" ==> ListedId(ProfileRow(u)) == Ok(Some(Str(u.id)))
    ensures u.id == "" ==> ListedId(ProfileRow(u)) == Ok(None)
    ensures ViewOf(Some(Str(u.id)), ProfileRow(u), now) == UserAsView(u)
    ensures ViewOf(Get(ProfileRow(u), "userId"), ProfileRow(u), now) == UserAsView(u)
  {
  }

  /** A create with a fresh id succeeds, and reading the id back returns the
      same name, email, status ACTIVE and the two timestamps. */
  lemma CreateThenGet(t: Table, id: string, name: string, email: string,
                      createdAt: string, updatedAt: string, now: string, seed: seq<UserView>)
    requires WellKeyed(t) && ProfileKey(id) !in t
    ensures var s := CreateUser(t, Reachable, id, name, email, createdAt, updatedAt);
            && s.result.Ok?
            && s.result.value.status == ACTIVE
            && GetUserById(s.table, Reachable, id, now, seed)
               == Some(UserView(Some(Str(id)), Some(Str(name)), Some(Str(email)), ACTIVE_VALUE,
                                Str(createdAt), Str(updatedAt)))
  {
    var s := CreateUser(t, Reachable, id, name, email, createdAt, updatedAt);
    ProfileRowRoundTrip(s.result.value, now);
  }

  /** After creating a user with an email no row is indexed under, the index
      finds that email, and only at the new profile row. */
  lemma CreateThenFindByEmail(t: Table, id: string, name: string, email: string,
                              createdAt: string, updatedAt: string)
    requires WellKeyed(t) && ProfileKey(id) !in t && !EmailIndexed(t, email)
    ensures var s := CreateUser(t, Reachable, id, name, email, createdAt, updatedAt);
            && EmailIndexed(s.table, email)
            && forall k :: k in s.table && IndexedUnder(s.table[k], EmailIndexPk(email)) ==> k == ProfileKey(id)
  {
    var s := CreateUser(t, Reachable, id, name, email, createdAt, updatedAt);
    ProfileRowRoundTrip(s.result.value, "");
    assert IndexedUnder(s.table[ProfileKey(id)], EmailIndexPk(email));
  }

  /** No two items are indexed under the same GSI1 partition key. */
  ghost predicate EmailsUnique(t: Table)
  {
    forall k1, k2, g :: k1 in t && k2 in t && IndexedUnder(t[k1], g) && IndexedUnder(t[k2], g) ==> k1 == k2
  }

  /** The create condition only looks at the target key: with a fresh id the
      create succeeds even when another row is already indexed under the same
      email, leaving two rows under one index key. */
  lemma CreateIgnoresEmailIndex(t: Table, id: string, name: string, email: string,
                                createdAt: string, updatedAt: string)
    requires WellKeyed(t) && ProfileKey(id) !in t && EmailIndexed(t, email)
    ensures var s := CreateUser(t, Reachable, id, name, email, createdAt, updatedAt);
            s.result.Ok? && !EmailsUnique(s.table)
  {
    var s := CreateUser(t, Reachable, id, name, email, createdAt, updatedAt);
    var other :| other in t && IndexedUnder(t[other], EmailIndexPk(email));
    ProfileRowRoundTrip(s.result.value, "");
    assert other != ProfileKey(id);
    assert s.table[other] == t[other];
    assert IndexedUnder(s.table[ProfileKey(id)], EmailIndexPk(email));
  }

  /** A concrete instance: Ada's email already belongs to user `a`, and
      creating user `b` with it still succeeds. */
  lemma DuplicateEmailExample()
    ensures var ada := NewUser("a", "Ada", "ada@example.com", "t0", "t0");
            var t := map[ProfileKey("a") := ProfileRow(ada)];
            var s := CreateUser(t, Reachable, "b", "Ada", "ada@example.com", "t1", "t1");
            s.result.Ok? && !EmailsUnique(s.table)
  {
    var ada := NewUser("a", "Ada", "ada@example.com", "t0", "t0");
    var t := map[ProfileKey("a") := ProfileRow(ada)];
    ProfileRowRoundTrip(ada, "");
    assert ProfileKey("a") != ProfileKey("b") by { KeysDisjoint("a", "b"); }
    assert IndexedUnder(t[ProfileKey("a")], EmailIndexPk("ada@example.com"));
    CreateIgnoresEmailIndex(t, "b", "Ada", "ada@example.com", "t1", "t1");
  }

  /** The create the condition was evidently meant to be: it also fails when
      any row is already indexed under the email. */
  function CreateUserUniqueEmail(t: Table, b: Backend, id: string, name: string, email: string,
                                 createdAt: string, updatedAt: string): (r: Step<Key, Result<User>>)
    requires WellKeyed(t)
    ensures r.result.Ok? <==> b.Reachable? && ProfileKey(id) !in t && !EmailIndexed(t, email)
    ensures r.result.Err? ==> r.table == t && r.result.message == "Failed to create user"
    ensures r.result.Ok? ==> r.result.value == User(id, name, email, ACTIVE, createdAt, updatedAt)
    ensures r.result.Ok? ==> r.table == t[ProfileKey(id) := ProfileRow(r.result.value)]
  {
    if EmailIndexed(t, email) then Step(t, Err("Failed to create user"))
    else CreateUser(t, b, id, name, email, createdAt, updatedAt)
  }

  /** The corrected create keeps every email indexed at most once. */
  lemma CreateUniqueKeepsEmailsUnique(t: Table, b: Backend, id: string, name: string, email: string,
                                      createdAt: string, updatedAt: string)
    requires WellKeyed(t) && EmailsUnique(t)
    ensures EmailsUnique(CreateUserUniqueEmail(t, b, id, name, email, createdAt, updatedAt).table)
  {
    var s := CreateUserUniqueEmail(t, b, id, name, email, createdAt, updatedAt);
    if s.result.Ok? {
      var k0 := ProfileKey(id);
      var row := ProfileRow(s.result.value);
      forall g | IndexedUnder(row, g)
        ensures g == EmailIndexPk(email)
      {
      }
      forall k1, k2, g | k1 in s.table && k2 in s.table && IndexedUnder(s.table[k1], g) && IndexedUnder(s.table[k2], g)
        ensures k1 == k2
      {
      }
    }
  }

  /** Every profile row with a string email is indexed under that email. */
  ghost predicate IndexConsistent(t: Table)
  {
    forall k :: k in t && IsProfileItem(t[k]) && "email" in t[k] && t[k]["email"].Str?
      ==> IndexedUnder(t[k], EmailIndexPk(t[k]["email"].s))
  }

  /** Creating a user keeps the index consistent. */
  lemma CreateKeepsIndexConsistent(t: Table, b: Backend, id: string, name: string, email: string,
                                   createdAt: string, updatedAt: string)
    requires WellKeyed(t) && IndexConsistent(t)
    ensures IndexConsistent(CreateUser(t, b, id, name, email, createdAt, updatedAt).table)
  {
    var s := CreateUser(t, b, id, name, email, createdAt, updatedAt);
    if s.result.Ok? {
      ProfileRowRoundTrip(s.result.value, "");
    }
  }

  /** Updating the email of an indexed profile row leaves its index key at the
      old email: the index still finds the row under the old email, and finds
      nothing under the new one. */
  lemma UpdateEmailLeavesIndexStale(t: Table, id: string, input: UpdateInput, now: string, oldEmail: string)
    requires ProfileKey(id) in t && IndexedUnder(t[ProfileKey(id)], EmailIndexPk(oldEmail))
    requires Supplied(input.email) && input.email.value != oldEmail
    requires !EmailIndexed(t, input.email.value)
    ensures var s := UpdateUser(t, Reachable, id, input, now);
            && EmailIndexed(s.table, oldEmail)
            && !EmailIndexed(s.table, input.email.value)
            && Get(s.table[ProfileKey(id)], "email") == Some(Str(input.email.value))
  {
    var s := UpdateUser(t, Reachable, id, input, now);
    var k := ProfileKey(id);
    assert Get(s.table[k], "GSI1PK") == Get(t[k], "GSI1PK");
    assert Get(s.table[k], "GSI1SK") == Get(t[k], "GSI1SK");
    assert IndexedUnder(s.table[k], EmailIndexPk(oldEmail));
    EmailIndexPkInjective(oldEmail, input.email.value);
    forall k' | k' in s.table
      ensures !IndexedUnder(s.table[k'], EmailIndexPk(input.email.value))
    {
      if k' != k {
        assert s.table[k'] == t[k'];
      }
    }
  }

  /** A concrete instance: user `a` created as a@example.com and then given
      b@example.com is no longer consistent with the index. */
  lemma StaleIndexExample()
    ensures var t := CreateUser(map[], Reachable, "a", "Ada", "a@example.com", "t0", "t0").table;
            var s := UpdateUser(t, Reachable, "a", UpdateInput(None, Some("b@example.com"), None), "t1");
            && EmailIndexed(s.table, "a@example.com")
            && !EmailIndexed(s.table, "b@example.com")
            && !IndexConsistent(s.table)
  {
    var u := NewUser("a", "Ada", "a@example.com", "t0", "t0");
    var t := map[ProfileKey("a") := ProfileRow(u)];
    assert CreateUser(map[], Reachable, "a", "Ada", "a@example.com", "t0", "t0").table == t;
    var input := UpdateInput(None, Some("b@example.com"), None);
    ProfileRowRoundTrip(u, "");
    assert !EmailIndexed(t, "b@example.com") by {
      EmailIndexPkInjective("a@example.com", "b@example.com");
    }
    UpdateEmailLeavesIndexStale(t, "a", input, "t1", "a@example.com");
    var s := UpdateUser(t, Reachable, "a", input, "t1");
    var row := s.table[ProfileKey("a")];
    assert Get(row, "SK") == Get(t[ProfileKey("a")], "SK");
    assert IsProfileItem(row);
    assert row["email"] == Str("b@example.com");
    assert !IndexedUnder(row, EmailIndexPk("b@example.com"));
  }

  /** The update the layout evidently needs: when the email changes, the
      index keys are rewritten with it. */
  function UpdateUserReindexed(t: Table, b: Backend, id: string, input: UpdateInput, now: string): (r: Step<Key, Result<UserView>>)
    ensures r.result == UpdateUser(t, b, id, input, now).result
    ensures !Supplied(input.email) ==> r == UpdateUser(t, b, id, input, now)
    ensures b.Reachable? && Supplied(input.email) ==>
              var written := UpdateUser(t, b, id, input, now).table;
              var k := ProfileKey(id);
              r.table == written[k := written[k]["GSI1PK" := Str(EmailIndexPk(input.email.value))]
                                                ["GSI1SK" := Str(UserPk(id))]]
    ensures !(b.Reachable? && NamesAField(input)) ==> r.table == t && r.result == Err("Failed to update user")
    ensures b.Reachable? && NamesAField(input) ==> r.table.Keys == t.Keys + {ProfileKey(id)}
    ensures b.Reachable? && NamesAField(input) ==> forall k :: k in t && k != ProfileKey(id) ==> r.table[k] == t[k]
    ensures b.Reachable? && Supplied(input.email) ==>
              IndexedUnder(r.table[ProfileKey(id)], EmailIndexPk(input.email.value))
  {
    var written := UpdateUser(t, b, id, input, now);
    var k := ProfileKey(id);
    if b.Reachable? && Supplied(input.email) then
      Step(written.table[k := written.table[k]["GSI1PK" := Str(EmailIndexPk(input.email.value))]
                                                ["GSI1SK" := Str(UserPk(id))]],
           written.result)
    else
      written
  }

  /** The corrected update writes the same fields as the update: apart from
      the two index keys, the new row agrees with what the update writes, and
      the returned record is normalised from it. */
  lemma ReindexedUpdateAgreesOnFields(t: Table, b: Backend, id: string, input: UpdateInput, now: string)
    requires b.Reachable? && NamesAField(input)
    ensures var k := ProfileKey(id);
            var before := LookupOr(t, k, KeyItem(k));
            var r := UpdateUserReindexed(t, b, id, input, now);
            var after := r.table[k];
            && (forall a :: a != "GSI1PK" && a != "GSI1SK" ==>
                  Get(after, a) == Get(UpdateUser(t, b, id, input, now).table[k], a))
            && (!Supplied(input.email) ==> Get(after, "GSI1PK") == Get(before, "GSI1PK"))
            && (!Supplied(input.email) ==> Get(after, "GSI1SK") == Get(before, "GSI1SK"))
            && r.result.Ok? && r.result.value.id == Some(Str(id))
            && Normalized(r.result.value, after, now)
  {
    if Supplied(input.email) {
      var k := ProfileKey(id);
      var row := UpdateUser(t, b, id, input, now).table[k];
      var after := row["GSI1PK" := Str(EmailIndexPk(input.email.value))]["GSI1SK" := Str(UserPk(id))];
      assert UpdateUserReindexed(t, b, id, input, now).table[k] == after;
      forall a | a != "GSI1PK" && a != "GSI1SK"
        ensures Get(after, a) == Get(row, a)
      {
        assert (a in after <==> a in row) && (a in row ==> after[a] == row[a]);
      }
    }
  }

  /** The corrected update keeps the index consistent. */
  lemma UpdateReindexedKeepsIndexConsistent(t: Table, b: Backend, id: string, input: UpdateInput, now: string)
    requires IndexConsistent(t)
    ensures IndexConsistent(UpdateUserReindexed(t, b, id, input, now).table)
  {
    var s := UpdateUserReindexed(t, b, id, input, now);
    if b.Reachable? && NamesAField(input) {
      var k := ProfileKey(id);
      var before := LookupOr(t, k, KeyItem(k));
      var after := s.table[k];
      ReindexedUpdateAgreesOnFields(t, b, id, input, now);
      forall k' | k' in s.table && IsProfileItem(s.table[k']) && "email" in s.table[k'] && s.table[k']["email"].Str?
        ensures IndexedUnder(s.table[k'], EmailIndexPk(s.table[k']["email"].s))
      {
        if k' != k {
          assert s.table[k'] == t[k'];
        } else if Supplied(input.email) {
          assert Get(after, "email") == Some(Str(input.email.value));
        } else {
          assert Get(after, "email") == Get(before, "email");
          assert k in t;
          assert Get(after, "SK") == Get(before, "SK");
          assert IndexedUnder(before, EmailIndexPk(before["email"].s));
        }
      }
    }
  }

  /** Updating an id that has no profile row creates one holding only the
      key, `updatedAt` and the supplied fields: it has no `createdAt` and no
      index keys, so no email lookup can find it. */
  lemma UpdateOfMissingUserCreatesUnindexedRow(t: Table, id: string, input: UpdateInput, now: string)
    requires ProfileKey(id) !in t && NamesAField(input)
    ensures var row := UpdateUser(t, Reachable, id, input, now).table[ProfileKey(id)];
            && Carries(row, ProfileKey(id))
            && IsProfileItem(row)
            && "createdAt" !in row
            && (forall g :: !IndexedUnder(row, g))
            && ("name" in row <==> Supplied(input.name))
            && ("email" in row <==> Supplied(input.email))
            && ("status" in row <==> Supplied(input.status))
  {
    var k := ProfileKey(id);
    FreshUpsertHoldsOnlyKey(t, k);
    var row := UpdateUser(t, Reachable, id, input, now).table[k];
    assert Get(row, "PK") == Some(Str(k.pk)) && Get(row, "SK") == Some(Str(k.sk));
    assert Get(row, "createdAt") == None && Get(row, "GSI1PK") == None;
    assert !Supplied(input.name) ==> Get(row, "name") == None;
    assert !Supplied(input.email) ==> Get(row, "email") == None;
    assert !Supplied(input.status) ==> Get(row, "status") == None;
  }

  /** Deleting a user twice is deleting it once: same table, same result. */
  lemma DeleteIdempotent(t: Table, id: string)
    ensures var once := DeleteUser(t, Reachable, id);
            DeleteUser(once.table, Reachable, id) == once
  {
  }

  /** Deleting a user removes only the profile row: the user's dashboard row
      and the global dashboard row are kept. */
  lemma DeleteKeepsDashboardRows(t: Table, id: string)
    ensures var s := DeleteUser(t, Reachable, id);
            && ProfileKey(id) !in s.table
            && (UserStatsKey(id) in t ==> UserStatsKey(id) in s.table && s.table[UserStatsKey(id)] == t[UserStatsKey(id)])
            && (GlobalStatsKey in t ==> GlobalStatsKey in s.table && s.table[GlobalStatsKey] == t[GlobalStatsKey])
  {
    KeysDisjoint(id, id);
  }

  /** Deleting a user keeps the index consistent. */
  lemma DeleteKeepsIndexConsistent(t: Table, b: Backend, id: string)
    requires IndexConsistent(t)
    ensures IndexConsistent(DeleteUser(t, b, id).table)
  {
  }

  /** `getUserById` depends on nothing but the row at `(USER#<id>, PROFILE)`. */
  lemma GetUserByIdReadsOnlyProfileKey(t1: Table, t2: Table, b: Backend, id: string, now: string, seed: seq<UserView>)
    requires ProfileKey(id) in t1 <==> ProfileKey(id) in t2
    requires ProfileKey(id) in t1 ==> t1[ProfileKey(id)] == t2[ProfileKey(id)]
    ensures GetUserById(t1, b, id, now, seed) == GetUserById(t2, b, id, now, seed)
  {
  }
}
