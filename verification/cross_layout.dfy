/**
 How the three layouts relate: a user kept in the legacy table and carried
 over by the migration ends up as exactly the profile row the single-table
 service writes for it, and the migration keeps the single table keyed and
 indexed the way the service expects.
 */
module Layouts {
  import opened Wrappers
  import opened Values
  import opened Storage
  import opened KeyCodec
  import opened UserFields
  import UserRepository
  import LegacyUsers
  import Migration

  /** A legacy user row migrates to the profile row `createUser` writes for
      the same user. */
  lemma LegacyUserMigratesToProfileRow(u: User, now: string)
    ensures Migration.UserRow(LegacyUsers.UserItem(u), now) == Some(UserRepository.ProfileRow(u))
  {
  }

  /** The legacy items of a list of users. */
  function LegacyItems(users: seq<User>): (items: seq<Item>)
    ensures |items| == |users|
    ensures forall j :: 0 <= j < |items| ==> items[j] == LegacyUsers.UserItem(users[j])
    ensures forall j :: 0 <= j < |items| ==> LegacyUsers.UserShape(items[j])
  {
    if |users| == 0 then [] else [LegacyUsers.UserItem(users[0])] + LegacyItems(users[1..])
  }

  /** Migrating the legacy rows of any users succeeds and counts every user. */
  lemma {:induction false} MigrateUsersCountsAll(t: Table, users: seq<User>, count: nat, now: string)
    ensures var p := Migration.PutUsers(t, LegacyItems(users), count, now);
            p.ok && p.count == count + |users|
    decreases |users|
  {
    if |users| > 0 {
      LegacyUserMigratesToProfileRow(users[0], now);
      assert LegacyItems(users)[1..] == LegacyItems(users[1..]);
      MigrateUsersCountsAll(t[ProfileKey(users[0].id) := UserRepository.ProfileRow(users[0])], users[1..], count + 1, now);
    }
  }

  /** Migrating the legacy rows of users leaves every key that is not one of
      their profile keys as it was. */
  lemma {:induction false} MigrateUsersKeepsOtherKeys(t: Table, users: seq<User>, count: nat, now: string)
    ensures var p := Migration.PutUsers(t, LegacyItems(users), count, now);
            forall k :: k in t && (forall j :: 0 <= j < |users| ==> k != ProfileKey(users[j].id)) ==>
              k in p.table && p.table[k] == t[k]
    decreases |users|
  {
    if |users| > 0 {
      var k0 := ProfileKey(users[0].id);
      var t1 := t[k0 := UserRepository.ProfileRow(users[0])];
      LegacyUserMigratesToProfileRow(users[0], now);
      assert LegacyItems(users)[0]["id"].s == users[0].id;
      assert LegacyItems(users)[1..] == LegacyItems(users[1..]);
      assert Migration.PutUsers(t, LegacyItems(users), count, now)
          == Migration.PutUsers(t1, LegacyItems(users[1..]), count + 1, now);
      MigrateUsersKeepsOtherKeys(t1, users[1..], count + 1, now);
      forall k | k in t && (forall j :: 0 <= j < |users| ==> k != ProfileKey(users[j].id))
        ensures k in t1 && t1[k] == t[k]
        ensures forall j :: 0 <= j < |users[1..]| ==> k != ProfileKey(users[1..][j].id)
      {
        assert k != ProfileKey(users[0].id);
        forall j | 0 <= j < |users[1..]|
          ensures k != ProfileKey(users[1..][j].id)
        {
          assert users[1..][j] == users[j + 1];
        }
      }
    }
  }

  /** Migrating the legacy rows of users with distinct ids puts each user's
      profile row under its profile key. */
  lemma {:induction false} MigrateDistinctUsers(t: Table, users: seq<User>, count: nat, now: string)
    requires forall i, j :: 0 <= i < j < |users| ==> users[i].id != users[j].id
    ensures var p := Migration.PutUsers(t, LegacyItems(users), count, now);
            forall j :: 0 <= j < |users| ==>
              ProfileKey(users[j].id) in p.table
              && p.table[ProfileKey(users[j].id)] == UserRepository.ProfileRow(users[j])
    decreases |users|
  {
    if |users| > 0 {
      var u := users[0];
      var k0 := ProfileKey(u.id);
      var t1 := t[k0 := UserRepository.ProfileRow(u)];
      LegacyUserMigratesToProfileRow(u, now);
      assert LegacyItems(users)[0]["id"].s == u.id;
      assert LegacyItems(users)[1..] == LegacyItems(users[1..]);
      assert Migration.PutUsers(t, LegacyItems(users), count, now)
          == Migration.PutUsers(t1, LegacyItems(users[1..]), count + 1, now);
      var rest := users[1..];
      assert forall j :: 0 <= j < |rest| ==> rest[j] == users[j + 1];
      MigrateDistinctUsers(t1, rest, count + 1, now);
      forall j | 0 <= j < |rest|
        ensures k0 != ProfileKey(rest[j].id)
      {
        KeysDisjoint(u.id, rest[j].id);
      }
      MigrateUsersKeepsOtherKeys(t1, rest, count + 1, now);
    }
  }

  /** Migrating the legacy rows of users writes nothing but their profile keys. */
  lemma {:induction false} MigrateUsersWritesOnlyProfiles(t: Table, users: seq<User>, count: nat, now: string)
    ensures var p := Migration.PutUsers(t, LegacyItems(users), count, now);
            forall k :: k in p.table ==> k in t || exists j :: 0 <= j < |users| && k == ProfileKey(users[j].id)
    decreases |users|
  {
    if |users| > 0 {
      var k0 := ProfileKey(users[0].id);
      LegacyUserMigratesToProfileRow(users[0], now);
      assert LegacyItems(users)[1..] == LegacyItems(users[1..]);
      var t1 := t[k0 := UserRepository.ProfileRow(users[0])];
      MigrateUsersWritesOnlyProfiles(t1, users[1..], count + 1, now);
      var p := Migration.PutUsers(t1, LegacyItems(users[1..]), count + 1, now);
      forall k | k in p.table
        ensures k in t || exists j :: 0 <= j < |users| && k == ProfileKey(users[j].id)
      {
        if k !in t1 {
          var j :| 0 <= j < |users[1..]| && k == ProfileKey(users[1..][j].id);
          assert k == ProfileKey(users[j + 1].id);
        } else if k == k0 {
          assert k == ProfileKey(users[0].id);
        }
      }
    }
  }

  /** The users pass keeps the single table well keyed, and every profile
      row it writes is indexed under its own email. */
  lemma {:induction false} PutUsersKeepsLayout(t: Table, items: seq<Item>, count: nat, now: string)
    requires forall j :: 0 <= j < |items| ==> LegacyUsers.UserShape(items[j])
    requires WellKeyed(t) && UserRepository.IndexConsistent(t)
    ensures WellKeyed(Migration.PutUsers(t, items, count, now).table)
    ensures UserRepository.IndexConsistent(Migration.PutUsers(t, items, count, now).table)
    decreases |items|
  {
    if |items| > 0 && Migration.UserRow(items[0], now).Some? {
      var k := ProfileKey(items[0]["id"].s);
      var row := Migration.UserRow(items[0], now).value;
      var t1 := t[k := row];
      assert Carries(row, k);
      assert IndexedUnder(row, EmailIndexPk(row["email"].s));
      assert WellKeyed(t1);
      assert UserRepository.IndexConsistent(t1);
      PutUsersKeepsLayout(t1, items[1..], count + 1, now);
    }
  }

  /** A legacy update of an id the table does not hold leaves an item the
      migration cannot carry over unless both name and email were supplied;
      when it can, the row it writes is stamped as created at migration time
      and as updated when the legacy update ran. */
  lemma PartialLegacyItemBlocksMigration(t: LegacyTable, id: string, input: UpdateInput, now: string, later: string)
    requires LegacyUsers.UserTable(t) && id !in t && NamesAField(input)
    ensures var s := LegacyUsers.UpdateUser(t, Reachable, id, input, now);
            && LegacyUsers.UserShape(s.table[id])
            && (Migration.UserRow(s.table[id], later).None? <==> !Supplied(input.name) || !Supplied(input.email))
            && (Migration.UserRow(s.table[id], later).Some? ==>
                  && Migration.UserRow(s.table[id], later).value["createdAt"] == Str(later)
                  && Migration.UserRow(s.table[id], later).value["updatedAt"] == Str(now))
  {
    LegacyUsers.UpdateKeepsUserTable(t, Reachable, id, input, now);
    LegacyUsers.UpdateOfMissingUserCreatesPartialItem(t, id, input, now);
    var s := LegacyUsers.UpdateUser(t, Reachable, id, input, now);
    assert Get(s.table[id], "updatedAt") == Some(Str(now));
  }

  /** Reading back a migrated user through the single-table service gives
      the legacy item's name and email, its status or `ACTIVE`, and its
      timestamps or the migration's clock, whatever the clock of the read. */
  lemma MigratedUserReadsBack(t: Table, item: Item, migrateNow: string, readNow: string, seed: seq<UserRepository.UserView>)
    requires LegacyUsers.UserShape(item) && "name" in item && "email" in item
    ensures Migration.UserRow(item, migrateNow).Some?
    ensures var id := item["id"].s;
            var t1 := t[ProfileKey(id) := Migration.UserRow(item, migrateNow).value];
            var v := UserRepository.GetUserById(t1, Reachable, id, readNow, seed);
            && v.Some?
            && v.value.id == Some(Str(id))
            && v.value.name == Some(item["name"])
            && v.value.email == Some(item["email"])
            && v.value.status == (if "status" in item then item["status"] else UserRepository.ACTIVE_VALUE)
            && v.value.createdAt == (if "createdAt" in item then item["createdAt"] else Str(migrateNow))
            && v.value.updatedAt == (if "updatedAt" in item then item["updatedAt"] else Str(migrateNow))
  {
  }
}
