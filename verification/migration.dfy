/**
 The one-shot migration from the legacy user and dashboard tables into the
 single table. Legacy tables are read by paginated scans (and one point read);
 every write is an unconditional put into the single table. Phases run in the
 order ensure-table, users, dashboard, and the first error ends the run with
 exit status 1, keeping what was already written.
 */
module Migration {
  import opened Wrappers
  import opened Values
  import opened Storage
  import opened KeyCodec
  import opened UserFields
  import LegacyUsers
  import LegacyDashboard

  /** One response of a paginated scan: its items, and whether it carried a
      `LastEvaluatedKey` to continue from. */
  datatype Page = Page(items: seq<Item>, more: bool)

  /** The scan ends: some response carries no continuation key. */
  predicate Ends(pages: seq<Page>)
  {
    exists i :: 0 <= i < |pages| && !pages[i].more
  }

  /** The index of the first response without a continuation key. */
  function FirstFinal(pages: seq<Page>): (i: nat)
    requires Ends(pages)
    ensures i < |pages| && !pages[i].more
    ensures forall j :: 0 <= j < i ==> pages[j].more
  {
    if !pages[0].more then 0
    else
      assert Ends(pages[1..]) by {
        var i :| 0 <= i < |pages| && !pages[i].more;
        assert pages[1..][i - 1] == pages[i];
      }
      1 + FirstFinal(pages[1..])
  }

  /** The responses the `do … while (lastKey)` loop requests. */
  function Consumed(pages: seq<Page>): seq<Page>
    requires Ends(pages)
  {
    pages[..FirstFinal(pages) + 1]
  }

  /** All items of a sequence of responses, in order. */
  function Flatten(pages: seq<Page>): seq<Item>
  {
    if |pages| == 0 then [] else pages[0].items + Flatten(pages[1..])
  }

  /** Every scanned item satisfies `P`. */
  ghost predicate AllItems(pages: seq<Page>, P: Item -> bool)
  {
    forall i, j :: 0 <= i < |pages| && 0 <= j < |pages[i].items| ==> P(pages[i].items[j])
  }

  /** Every scanned legacy user has the legacy shape (its table is keyed by
      the string `id`, and only strings are written to `name` and `email`). */
  ghost predicate UserPages(pages: seq<Page>)
  {
    AllItems(pages, LegacyUsers.UserShape)
  }

  /** Every scanned legacy dashboard item has its string key `id`. */
  ghost predicate DashboardPages(pages: seq<Page>)
  {
    AllItems(pages, HasStringId)
  }

  predicate HasStringId(item: Item)
  {
    "id" in item && item["id"].Str?
  }

  lemma UserPagesTail(pages: seq<Page>)
    requires |pages| > 0 && UserPages(pages)
    ensures UserPages(pages[1..])
    ensures forall j :: 0 <= j < |pages[0].items| ==> LegacyUsers.UserShape(pages[0].items[j])
  {
    forall i, j | 0 <= i < |pages[1..]| && 0 <= j < |pages[1..][i].items|
      ensures LegacyUsers.UserShape(pages[1..][i].items[j])
    {
      assert pages[1..][i] == pages[i + 1];
    }
  }

  lemma DashboardPagesTail(pages: seq<Page>)
    requires |pages| > 0 && DashboardPages(pages)
    ensures DashboardPages(pages[1..])
    ensures forall j :: 0 <= j < |pages[0].items| ==> HasStringId(pages[0].items[j])
  {
    forall i, j | 0 <= i < |pages[1..]| && 0 <= j < |pages[1..][i].items|
      ensures HasStringId(pages[1..][i].items[j])
    {
      assert pages[1..][i] == pages[i + 1];
    }
  }

  /** Flattening responses keeps a property every scanned item has. */
  lemma {:induction false} FlattenKeeps(pages: seq<Page>, P: Item -> bool)
    requires AllItems(pages, P)
    ensures forall j :: 0 <= j < |Flatten(pages)| ==> P(Flatten(pages)[j])
    decreases |pages|
  {
    if |pages| > 0 {
      assert AllItems(pages[1..], P) by {
        forall i, j | 0 <= i < |pages[1..]| && 0 <= j < |pages[1..][i].items|
          ensures P(pages[1..][i].items[j])
        {
          assert pages[1..][i] == pages[i + 1];
        }
      }
      FlattenKeeps(pages[1..], P);
      forall j | 0 <= j < |Flatten(pages)|
        ensures P(Flatten(pages)[j])
      {
        if j < |pages[0].items| {
          assert Flatten(pages)[j] == pages[0].items[j];
        } else {
          assert Flatten(pages)[j] == Flatten(pages[1..])[j - |pages[0].items|];
        }
      }
    }
  }

  /** The requested responses keep a property every scanned item has. */
  lemma ConsumedKeeps(pages: seq<Page>, P: Item -> bool)
    requires Ends(pages) && AllItems(pages, P)
    ensures AllItems(Consumed(pages), P)
  {
    forall i, j | 0 <= i < |Consumed(pages)| && 0 <= j < |Consumed(pages)[i].items|
      ensures P(Consumed(pages)[i].items[j])
    {
      assert Consumed(pages)[i] == pages[i];
    }
  }

  /** The state of a pass: the single table so far, its counter, and whether
      it is still running without error. */
  datatype Progress = Progress(table: Table, count: nat, ok: bool)

  // ---------------------------------------------------------------------
  // Users pass

  /** The single-table row for one legacy user item; None when `name` or
      `email` is undefined, since the document client refuses to marshal an
      undefined attribute and the put throws. */
  function UserRow(item: Item, now: string): (row: Option<Item>)
    requires LegacyUsers.UserShape(item)
    ensures row.None? <==> "name" !in item || "email" !in item
  {
    if "name" !in item || "email" !in item then None
    else
      var id := item["id"].s;
      Some(map["PK" := Str(UserPk(id)), "SK" := Str(PROFILE_SK),
               "GSI1PK" := Str(EmailIndexPk(item["email"].s)), "GSI1SK" := Str(UserPk(id)),
               "userId" := Str(id), "name" := item["name"], "email" := item["email"],
               "status" := LookupOr(item, "status", Str(ACTIVE.Name())),
               "createdAt" := LookupOr(item, "createdAt", Str(now)),
               "updatedAt" := LookupOr(item, "updatedAt", Str(now))])
  }
  /** The row for a legacy user: keyed and indexed as the service expects,
      with its id, name and email copied, its status or `ACTIVE`, and its
      timestamps or the migration's clock. */
  lemma UserRowContents(item: Item, now: string)
    requires LegacyUsers.UserShape(item)
    ensures var row := UserRow(item, now);
            row.Some? ==>
              var id := item["id"].s;
              && Carries(row.value, ProfileKey(id))
              && IndexedUnder(row.value, EmailIndexPk(item["email"].s))
              && row.value.Keys == {"PK", "SK", "GSI1PK", "GSI1SK", "userId", "name", "email",
                                    "status", "createdAt", "updatedAt"}
              && row.value["GSI1SK"] == Str(UserPk(id))
              && row.value["userId"] == Str(id)
              && row.value["name"] == item["name"]
              && row.value["email"] == item["email"]
    ensures var row := UserRow(item, now);
            row.Some? ==>
              && row.value["status"] == (if "status" in item then item["status"] else Str(ACTIVE.Name()))
              && row.value["createdAt"] == (if "createdAt" in item then item["createdAt"] else Str(now))
              && row.value["updatedAt"] == (if "updatedAt" in item then item["updatedAt"] else Str(now))
  {
  }


  /** The inner `for` loop: put each item's row, counting, until a put throws. */
  function PutUsers(t: Table, items: seq<Item>, count: nat, now: string): Progress
    requires forall j :: 0 <= j < |items| ==> LegacyUsers.UserShape(items[j])
    decreases |items|
  {
    if |items| == 0 then Progress(t, count, true)
    else match UserRow(items[0], now)
      case None => Progress(t, count, false)
      case Some(row) => PutUsers(t[ProfileKey(items[0]["id"].s) := row], items[1..], count + 1, now)
  }

  /** The outer `do … while (lastKey)` loop from the given response on. */
  function UsersFrom(t: Table, pages: seq<Page>, count: nat, now: string): Progress
    requires UserPages(pages)
    decreases |pages|
  {
    if |pages| == 0 then Progress(t, count, true)
    else
      UserPagesTail(pages);
      var p := PutUsers(t, pages[0].items, count, now);
      if !p.ok || !pages[0].more then p
      else UsersFrom(p.table, pages[1..], p.count, now)
  }

  /** `migrateUsers` as a whole: a failing backend fails the first scan. */
  function UsersPass(t: Table, b: Backend, pages: seq<Page>, now: string): Progress
    requires UserPages(pages)
  {
    if b.Unreachable? then Progress(t, 0, false) else UsersFrom(t, pages, 0, now)
  }

  /** The inner loop of `migrateUsers` over the items of one response. */
  method PutPage(t: Table, items: seq<Item>, count: nat, now: string)
    returns (table: Table, migrated: nat, ok: bool)
    requires forall j :: 0 <= j < |items| ==> LegacyUsers.UserShape(items[j])
    ensures Progress(table, migrated, ok) == PutUsers(t, items, count, now)
  {
    table, migrated := t, count;
    var j := 0;
    while j < |items|
      invariant 0 <= j <= |items|
      invariant PutUsers(table, items[j..], migrated, now) == PutUsers(t, items, count, now)
    {
      assert items[j..][0] == items[j] && items[j..][1..] == items[j + 1..];
      var row := UserRow(items[j], now);
      if row.None? {
        return table, migrated, false;
      }
      table := table[ProfileKey(items[j]["id"].s) := row.value];
      migrated := migrated + 1;
      j := j + 1;
    }
    ok := true;
  }

  /** `migrateUsers` with its loops: it requests responses until one has no
      continuation key, puts one row per item, and counts the items. */
  method MigrateUsers(t: Table, b: Backend, pages: seq<Page>, now: string)
    returns (table: Table, migrated: nat, ok: bool)
    requires Ends(pages) && UserPages(pages)
    ensures Progress(table, migrated, ok) == UsersPass(t, b, pages, now)
    ensures ok ==> migrated == |Flatten(Consumed(pages))|
  {
    UsersPassCounts(t, b, pages, now);
    if b.Unreachable? {
      return t, 0, false;
    }
    table, migrated := t, 0;
    var i := 0;
    while true
      invariant 0 <= i <= FirstFinal(pages)
      invariant UsersFrom(table, pages[i..], migrated, now) == UsersFrom(t, pages, 0, now)
      decreases FirstFinal(pages) - i
    {
      UserPagesTail(pages[i..]);
      assert pages[i..][0] == pages[i] && pages[i..][1..] == pages[i + 1..];
      table, migrated, ok := PutPage(table, pages[i].items, migrated, now);
      if !ok || !pages[i].more {
        return;
      }
      i := i + 1;
    }
  }

  /** A successful users pass counts every item of the responses it requested. */
  lemma UsersPassCounts(t: Table, b: Backend, pages: seq<Page>, now: string)
    requires Ends(pages) && UserPages(pages)
    ensures UsersPass(t, b, pages, now).ok ==> UsersPass(t, b, pages, now).count == |Flatten(Consumed(pages))|
  {
    if b.Reachable? {
      UsersFromCounts(t, pages, 0, now);
    }
  }

  lemma {:induction false} PutUsersCounts(t: Table, items: seq<Item>, count: nat, now: string)
    requires forall j :: 0 <= j < |items| ==> LegacyUsers.UserShape(items[j])
    ensures PutUsers(t, items, count, now).ok ==> PutUsers(t, items, count, now).count == count + |items|
    decreases |items|
  {
    if |items| > 0 && UserRow(items[0], now).Some? {
      PutUsersCounts(t[ProfileKey(items[0]["id"].s) := UserRow(items[0], now).value], items[1..], count + 1, now);
    }
  }

  lemma {:induction false} UsersFromCounts(t: Table, pages: seq<Page>, count: nat, now: string)
    requires Ends(pages) && UserPages(pages)
    ensures UsersFrom(t, pages, count, now).ok ==>
              UsersFrom(t, pages, count, now).count == count + |Flatten(Consumed(pages))|
    decreases |pages|
  {
    UserPagesTail(pages);
    var p := PutUsers(t, pages[0].items, count, now);
    PutUsersCounts(t, pages[0].items, count, now);
    if !pages[0].more {
      assert Consumed(pages) == [pages[0]];
      assert Flatten(Consumed(pages)) == pages[0].items + Flatten([]);
    } else if p.ok {
      assert Ends(pages[1..]) && FirstFinal(pages) == 1 + FirstFinal(pages[1..]);
      UsersFromCounts(p.table, pages[1..], p.count, now);
      assert Consumed(pages) == [pages[0]] + Consumed(pages[1..]);
      assert ([pages[0]] + Consumed(pages[1..]))[1..] == Consumed(pages[1..]);
    }
  }

  /** The loop stops at the first response without a continuation key:
      responses after it are never requested and cannot affect the pass. */
  lemma {:induction false} UsersPassStopsAtFinalPage(t: Table, b: Backend, pages: seq<Page>, later: seq<Page>, now: string)
    requires Ends(pages) && UserPages(pages) && UserPages(Consumed(pages) + later)
    ensures UsersPass(t, b, Consumed(pages) + later, now) == UsersPass(t, b, pages, now)
  {
    if b.Reachable? {
      UsersFromStops(t, pages, later, 0, now);
    }
  }

  lemma {:induction false} UsersFromStops(t: Table, pages: seq<Page>, later: seq<Page>, count: nat, now: string)
    requires Ends(pages) && UserPages(pages) && UserPages(Consumed(pages) + later)
    ensures UsersFrom(t, Consumed(pages) + later, count, now) == UsersFrom(t, pages, count, now)
    decreases |pages|
  {
    var both := Consumed(pages) + later;
    assert both[0] == pages[0];
    UserPagesTail(pages);
    UserPagesTail(both);
    if pages[0].more {
      assert Ends(pages[1..]) && FirstFinal(pages) == 1 + FirstFinal(pages[1..]);
      assert both[1..] == Consumed(pages[1..]) + later;
      var p := PutUsers(t, pages[0].items, count, now);
      if p.ok {
        UsersFromStops(p.table, pages[1..], later, p.count, now);
      }
    }
  }

  /** The items the users pass sees: those of the responses it requests, in
      scan order, each of the legacy shape. */
  function MigratedItems(pages: seq<Page>): (items: seq<Item>)
    requires Ends(pages) && UserPages(pages)
    ensures forall j :: 0 <= j < |items| ==> LegacyUsers.UserShape(items[j])
  {
    ConsumedKeeps(pages, LegacyUsers.UserShape);
    FlattenKeeps(Consumed(pages), LegacyUsers.UserShape);
    Flatten(Consumed(pages))
  }

  /** Putting two runs of items is putting the first and, unless a put of it
      failed, the second from where the first left off. */
  lemma {:induction false} PutUsersAppend(t: Table, a: seq<Item>, b: seq<Item>, count: nat, now: string)
    requires forall j :: 0 <= j < |a| ==> LegacyUsers.UserShape(a[j])
    requires forall j :: 0 <= j < |b| ==> LegacyUsers.UserShape(b[j])
    ensures forall j :: 0 <= j < |a + b| ==> LegacyUsers.UserShape((a + b)[j])
    ensures var p := PutUsers(t, a, count, now);
            PutUsers(t, a + b, count, now) == if p.ok then PutUsers(p.table, b, p.count, now) else p
    decreases |a|
  {
    if |a| == 0 {
      assert a + b == b;
    } else {
      assert (a + b)[0] == a[0] && (a + b)[1..] == a[1..] + b;
      if UserRow(a[0], now).Some? {
        PutUsersAppend(t[ProfileKey(a[0]["id"].s) := UserRow(a[0], now).value], a[1..], b, count + 1, now);
      }
    }
  }

  /** The paginated users pass is the put of every item of the responses it
      requests, in scan order, stopping at the first failing put. */
  lemma {:induction false} UsersFromPutsConsumed(t: Table, pages: seq<Page>, count: nat, now: string)
    requires Ends(pages) && UserPages(pages)
    ensures UsersFrom(t, pages, count, now) == PutUsers(t, MigratedItems(pages), count, now)
    decreases |pages|
  {
    UserPagesTail(pages);
    if !pages[0].more {
      assert Consumed(pages) == [pages[0]];
      assert Flatten(Consumed(pages)) == pages[0].items + Flatten([]);
      assert pages[0].items + Flatten([]) == pages[0].items;
    } else {
      assert Ends(pages[1..]) && FirstFinal(pages) == 1 + FirstFinal(pages[1..]);
      assert Consumed(pages) == [pages[0]] + Consumed(pages[1..]);
      assert ([pages[0]] + Consumed(pages[1..]))[1..] == Consumed(pages[1..]);
      assert MigratedItems(pages) == pages[0].items + MigratedItems(pages[1..]);
      PutUsersAppend(t, pages[0].items, MigratedItems(pages[1..]), count, now);
      var p := PutUsers(t, pages[0].items, count, now);
      if p.ok {
        UsersFromPutsConsumed(p.table, pages[1..], p.count, now);
      }
    }
  }

  /** The puts succeed exactly when every item has a name and an email. */
  lemma {:induction false} PutUsersOk(t: Table, items: seq<Item>, count: nat, now: string)
    requires forall j :: 0 <= j < |items| ==> LegacyUsers.UserShape(items[j])
    ensures PutUsers(t, items, count, now).ok <==>
              forall j :: 0 <= j < |items| ==> "name" in items[j] && "email" in items[j]
    decreases |items|
  {
    if |items| > 0 && UserRow(items[0], now).Some? {
      PutUsersOk(t[ProfileKey(items[0]["id"].s) := UserRow(items[0], now).value], items[1..], count + 1, now);
      assert forall j :: 0 <= j < |items[1..]| ==> items[1..][j] == items[j + 1];
    }
  }

  /** The puts change only the profile keys of the items, and write nothing
      else, whether or not they all succeed. */
  lemma {:induction false} PutUsersKeepsOtherRows(t: Table, items: seq<Item>, count: nat, now: string)
    requires forall j :: 0 <= j < |items| ==> LegacyUsers.UserShape(items[j])
    ensures var p := PutUsers(t, items, count, now);
            forall k :: k in t && (forall j :: 0 <= j < |items| ==> k != ProfileKey(items[j]["id"].s)) ==>
              k in p.table && p.table[k] == t[k]
    ensures var p := PutUsers(t, items, count, now);
            forall k :: k in p.table ==> k in t || exists j :: 0 <= j < |items| && k == ProfileKey(items[j]["id"].s)
    decreases |items|
  {
    if |items| > 0 && UserRow(items[0], now).Some? {
      var rest := items[1..];
      assert forall j :: 0 <= j < |rest| ==> rest[j] == items[j + 1];
      var k0 := ProfileKey(items[0]["id"].s);
      var t1 := t[k0 := UserRow(items[0], now).value];
      PutUsersKeepsOtherRows(t1, rest, count + 1, now);
      var p := PutUsers(t1, rest, count + 1, now);
      assert PutUsers(t, items, count, now) == p;
      forall k | k in t && (forall j :: 0 <= j < |items| ==> k != ProfileKey(items[j]["id"].s))
        ensures k in t1 && t1[k] == t[k]
        ensures forall j :: 0 <= j < |rest| ==> k != ProfileKey(rest[j]["id"].s)
      {
        assert k != ProfileKey(items[0]["id"].s);
      }
      forall k | k in p.table
        ensures k in t || exists j :: 0 <= j < |items| && k == ProfileKey(items[j]["id"].s)
      {
        if k !in t1 {
          var j :| 0 <= j < |rest| && k == ProfileKey(rest[j]["id"].s);
          assert k == ProfileKey(items[j + 1]["id"].s);
        } else if k !in t {
          assert k == ProfileKey(items[0]["id"].s);
        }
      }
    }
  }

  /** One step of the puts: the first item's row, then the rest. */
  lemma PutUsersStep(t: Table, items: seq<Item>, count: nat, now: string)
    requires forall j :: 0 <= j < |items| ==> LegacyUsers.UserShape(items[j])
    requires |items| > 0 && UserRow(items[0], now).Some?
    ensures PutUsers(t, items, count, now)
         == PutUsers(t[ProfileKey(items[0]["id"].s) := UserRow(items[0], now).value], items[1..], count + 1, now)
  {
  }

  /** A row put before the others survives them when no later item shares
      its id. */
  lemma PutUsersKeepsHeadRow(t: Table, items: seq<Item>, count: nat, now: string, id: string)
    requires forall j :: 0 <= j < |items| ==> LegacyUsers.UserShape(items[j])
    requires ProfileKey(id) in t
    requires forall i :: 0 <= i < |items| ==> Get(items[i], "id") != Some(Str(id))
    ensures var p := PutUsers(t, items, count, now);
            ProfileKey(id) in p.table && p.table[ProfileKey(id)] == t[ProfileKey(id)]
  {
    forall i | 0 <= i < |items|
      ensures ProfileKey(id) != ProfileKey(items[i]["id"].s)
    {
      KeysDisjoint(id, items[i]["id"].s);
    }
    PutUsersKeepsOtherRows(t, items, count, now);
  }

  /** When the puts succeed, one item leaves its row under its profile key
      unless a later item with the same id overwrites it. */
  lemma {:induction false} PutUsersWritesRow(t: Table, items: seq<Item>, count: nat, now: string, j: nat)
    requires forall i :: 0 <= i < |items| ==> LegacyUsers.UserShape(items[i])
    requires PutUsers(t, items, count, now).ok
    requires j < |items| && forall i :: j < i < |items| ==> items[i]["id"] != items[j]["id"]
    ensures var p := PutUsers(t, items, count, now);
            && ProfileKey(items[j]["id"].s) in p.table
            && Some(p.table[ProfileKey(items[j]["id"].s)]) == UserRow(items[j], now)
    decreases j
  {
    var rest := items[1..];
    var id0 := items[0]["id"].s;
    var t1 := t[ProfileKey(id0) := UserRow(items[0], now).value];
    PutUsersStep(t, items, count, now);
    if j == 0 {
      forall i | 0 <= i < |rest|
        ensures Get(rest[i], "id") != Some(Str(id0))
      {
        assert rest[i] == items[i + 1];
      }
      PutUsersKeepsHeadRow(t1, rest, count + 1, now, id0);
    } else {
      assert rest[j - 1] == items[j];
      forall i | j - 1 < i < |rest|
        ensures rest[i]["id"] != rest[j - 1]["id"]
      {
        assert rest[i] == items[i + 1];
      }
      PutUsersWritesRow(t1, rest, count + 1, now, j - 1);
    }
  }

  /** When the puts succeed, each item leaves its row under its profile key,
      unless a later item with the same id overwrites it. */
  lemma PutUsersWritesRows(t: Table, items: seq<Item>, count: nat, now: string)
    requires forall j :: 0 <= j < |items| ==> LegacyUsers.UserShape(items[j])
    ensures var p := PutUsers(t, items, count, now);
            p.ok ==>
              forall j :: 0 <= j < |items| && (forall i :: j < i < |items| ==> items[i]["id"] != items[j]["id"]) ==>
                && ProfileKey(items[j]["id"].s) in p.table
                && Some(p.table[ProfileKey(items[j]["id"].s)]) == UserRow(items[j], now)
  {
    if PutUsers(t, items, count, now).ok {
      forall j | 0 <= j < |items| && (forall i :: j < i < |items| ==> items[i]["id"] != items[j]["id"])
        ensures ProfileKey(items[j]["id"].s) in PutUsers(t, items, count, now).table
        ensures Some(PutUsers(t, items, count, now).table[ProfileKey(items[j]["id"].s)]) == UserRow(items[j], now)
      {
        PutUsersWritesRow(t, items, count, now, j);
      }
    }
  }

  /** `migrateUsers` succeeds exactly when the backend answers and every
      requested item has a name and an email. It changes only the profile
      keys of those items, and on success each of them holds the row of the
      last item with its id. */
  lemma UsersPassRows(t: Table, b: Backend, pages: seq<Page>, now: string)
    requires Ends(pages) && UserPages(pages)
    ensures var r := UsersPass(t, b, pages, now);
            var items := MigratedItems(pages);
            && (r.ok <==> b.Reachable? && forall j :: 0 <= j < |items| ==> "name" in items[j] && "email" in items[j])
            && (forall k :: k in t && (forall j :: 0 <= j < |items| ==> k != ProfileKey(items[j]["id"].s)) ==>
                  k in r.table && r.table[k] == t[k])
            && (forall k :: k in r.table ==> k in t || exists j :: 0 <= j < |items| && k == ProfileKey(items[j]["id"].s))
            && (r.ok ==>
                  forall j :: 0 <= j < |items| && (forall i :: j < i < |items| ==> items[i]["id"] != items[j]["id"]) ==>
                    && ProfileKey(items[j]["id"].s) in r.table
                    && Some(r.table[ProfileKey(items[j]["id"].s)]) == UserRow(items[j], now))
  {
    if b.Reachable? {
      var items := MigratedItems(pages);
      UsersFromPutsConsumed(t, pages, 0, now);
      PutUsersOk(t, items, 0, now);
      PutUsersKeepsOtherRows(t, items, 0, now);
      PutUsersWritesRows(t, items, 0, now);
    }
  }

  // ---------------------------------------------------------------------
  // Re-running the users pass

  /** Every scanned user item has both timestamps. */
  ghost predicate Timestamped(pages: seq<Page>)
  {
    AllItems(pages, (item: Item) => "createdAt" in item && "updatedAt" in item)
  }

  /** The puts of a pass overlay the table: the result is the table it started
      from, overridden by what the pass writes into an empty table; the count
      and the error do not depend on the table at all. */
  lemma {:induction false} PutUsersOverlay(t: Table, items: seq<Item>, count: nat, now: string)
    requires forall j :: 0 <= j < |items| ==> LegacyUsers.UserShape(items[j])
    ensures var e := PutUsers(map[], items, count, now);
            PutUsers(t, items, count, now) == Progress(t + e.table, e.count, e.ok)
    decreases |items|
  {
    if |items| > 0 && UserRow(items[0], now).Some? {
      var k := ProfileKey(items[0]["id"].s);
      var row := UserRow(items[0], now).value;
      PutUsersOverlay(t[k := row], items[1..], count + 1, now);
      PutUsersOverlay(map[k := row], items[1..], count + 1, now);
      var rest := PutUsers(map[], items[1..], count + 1, now).table;
      assert t[k := row] + rest == t + (map[k := row] + rest);
    }
  }

  lemma {:induction false} UsersFromOverlay(t: Table, pages: seq<Page>, count: nat, now: string)
    requires UserPages(pages)
    ensures var e := UsersFrom(map[], pages, count, now);
            UsersFrom(t, pages, count, now) == Progress(t + e.table, e.count, e.ok)
    decreases |pages|
  {
    if |pages| > 0 {
      UserPagesTail(pages);
      PutUsersOverlay(t, pages[0].items, count, now);
      var e := PutUsers(map[], pages[0].items, count, now);
      if e.ok && pages[0].more {
        UsersFromOverlay(t + e.table, pages[1..], e.count, now);
        UsersFromOverlay(e.table, pages[1..], e.count, now);
        var rest := UsersFrom(map[], pages[1..], e.count, now).table;
        assert (t + e.table) + rest == t + (e.table + rest);
      }
    }
  }

  /** With both timestamps present, a row does not depend on the clock. */
  lemma {:induction false} PutUsersClockFree(t: Table, items: seq<Item>, count: nat, now1: string, now2: string)
    requires forall j :: 0 <= j < |items| ==> LegacyUsers.UserShape(items[j])
    requires forall j :: 0 <= j < |items| ==> "createdAt" in items[j] && "updatedAt" in items[j]
    ensures PutUsers(t, items, count, now1) == PutUsers(t, items, count, now2)
    decreases |items|
  {
    if |items| > 0 {
      assert UserRow(items[0], now1) == UserRow(items[0], now2);
      if UserRow(items[0], now1).Some? {
        PutUsersClockFree(t[ProfileKey(items[0]["id"].s) := UserRow(items[0], now1).value], items[1..], count + 1, now1, now2);
      }
    }
  }

  lemma {:induction false} UsersFromClockFree(t: Table, pages: seq<Page>, count: nat, now1: string, now2: string)
    requires UserPages(pages) && Timestamped(pages)
    ensures UsersFrom(t, pages, count, now1) == UsersFrom(t, pages, count, now2)
    decreases |pages|
  {
    if |pages| > 0 {
      UserPagesTail(pages);
      assert forall j :: 0 <= j < |pages[0].items| ==> "createdAt" in pages[0].items[j] && "updatedAt" in pages[0].items[j];
      PutUsersClockFree(t, pages[0].items, count, now1, now2);
      var p := PutUsers(t, pages[0].items, count, now1);
      if p.ok && pages[0].more {
        assert Timestamped(pages[1..]) by {
          forall i, j | 0 <= i < |pages[1..]| && 0 <= j < |pages[1..][i].items|
            ensures "createdAt" in pages[1..][i].items[j] && "updatedAt" in pages[1..][i].items[j]
          {
            assert pages[1..][i] == pages[i + 1];
          }
        }
        UsersFromClockFree(p.table, pages[1..], p.count, now1, now2);
      }
    }
  }

  /** Re-running the users pass over the same legacy data, at any later time,
      leaves the single table, the count and the outcome exactly as the first
      run left them, provided every legacy user has both timestamps. */
  lemma UsersPassIdempotent(t: Table, pages: seq<Page>, now1: string, now2: string)
    requires UserPages(pages) && Timestamped(pages)
    ensures var first := UsersPass(t, Reachable, pages, now1);
            UsersPass(first.table, Reachable, pages, now2) == first
  {
    var e := UsersFrom(map[], pages, 0, now1);
    UsersFromOverlay(t, pages, 0, now1);
    UsersFromOverlay(t + e.table, pages, 0, now1);
    UsersFromClockFree(t + e.table, pages, 0, now1, now2);
    assert (t + e.table) + e.table == t + e.table;
  }

  // ---------------------------------------------------------------------
  // Dashboard pass

  /** The global row: the legacy `stats` counters, each falsy or missing one
      as 0, stamped with the current time. */
  function GlobalRow(legacyDashboard: LegacyTable, now: string): (row: Item)
    ensures Carries(row, GlobalStatsKey)
    ensures row.Keys == {"PK", "SK", LegacyDashboard.TOTAL_USERS, LegacyDashboard.ACTIVE_USERS,
                         LegacyDashboard.TOTAL_ORDERS, LegacyDashboard.REVENUE, LegacyDashboard.LAST_UPDATED}
    ensures row[LegacyDashboard.LAST_UPDATED] == Str(now)
    ensures forall c :: c in GlobalCounters() ==>
              if LegacyDashboard.STATS_ID in legacyDashboard && c in legacyDashboard[LegacyDashboard.STATS_ID]
                 && Truthy(legacyDashboard[LegacyDashboard.STATS_ID][c])
              then row[c] == legacyDashboard[LegacyDashboard.STATS_ID][c]
              else row[c] == Num(0.0)
  {
    var stats := if LegacyDashboard.STATS_ID in legacyDashboard then legacyDashboard[LegacyDashboard.STATS_ID]
                 else LegacyDashboard.DefaultStats(now) - {"id"};
    map["PK" := Str(GLOBAL_STATS_PK), "SK" := Str(GLOBAL_STATS_SK),
        LegacyDashboard.TOTAL_USERS := OrIfFalsy(stats, LegacyDashboard.TOTAL_USERS, Num(0.0)),
        LegacyDashboard.ACTIVE_USERS := OrIfFalsy(stats, LegacyDashboard.ACTIVE_USERS, Num(0.0)),
        LegacyDashboard.TOTAL_ORDERS := OrIfFalsy(stats, LegacyDashboard.TOTAL_ORDERS, Num(0.0)),
        LegacyDashboard.REVENUE := OrIfFalsy(stats, LegacyDashboard.REVENUE, Num(0.0)),
        LegacyDashboard.LAST_UPDATED := Str(now)]
  }

  /** The four counters a dashboard row carries. */
  function GlobalCounters(): set<string>
  {
    {LegacyDashboard.TOTAL_USERS, LegacyDashboard.ACTIVE_USERS, LegacyDashboard.TOTAL_ORDERS, LegacyDashboard.REVENUE}
  }

  /** The per-user row for one legacy dashboard item: its counters, each
      missing one as 0, stamped with the current time. */
  function UserStatsRow(item: Item, now: string): (row: Item)
    requires HasStringId(item)
    ensures Carries(row, UserStatsKey(item["id"].s))
    ensures LegacyDashboard.LAST_UPDATED in row && row[LegacyDashboard.LAST_UPDATED] == Str(now)
    ensures row.Keys == {"PK", "SK", LegacyDashboard.TOTAL_USERS, LegacyDashboard.ACTIVE_USERS,
                         LegacyDashboard.TOTAL_ORDERS, LegacyDashboard.REVENUE, LegacyDashboard.LAST_UPDATED}
    ensures forall c :: c in GlobalCounters() ==>
              c in row && (if c in item then row[c] == item[c] else row[c] == Num(0.0))
  {
    map["PK" := Str(UserPk(item["id"].s)), "SK" := Str(USER_STATS_SK),
        LegacyDashboard.TOTAL_USERS := LookupOr(item, LegacyDashboard.TOTAL_USERS, Num(0.0)),
        LegacyDashboard.ACTIVE_USERS := LookupOr(item, LegacyDashboard.ACTIVE_USERS, Num(0.0)),
        LegacyDashboard.TOTAL_ORDERS := LookupOr(item, LegacyDashboard.TOTAL_ORDERS, Num(0.0)),
        LegacyDashboard.REVENUE := LookupOr(item, LegacyDashboard.REVENUE, Num(0.0)),
        LegacyDashboard.LAST_UPDATED := Str(now)]
  }

  /** The inner loop of the per-user copy: skips the item whose id is
      `stats`, copies and counts every other one. */
  function CopyStats(t: Table, items: seq<Item>, count: nat, now: string): Progress
    requires forall j :: 0 <= j < |items| ==> HasStringId(items[j])
    decreases |items|
  {
    if |items| == 0 then Progress(t, count, true)
    else
      assert HasStringId(items[0]);
      if items[0]["id"] == Str(LegacyDashboard.STATS_ID) then CopyStats(t, items[1..], count, now)
    else CopyStats(t[UserStatsKey(items[0]["id"].s) := UserStatsRow(items[0], now)], items[1..], count + 1, now)
  }

  /** The outer `do … while (lastKey)` loop of the per-user copy. */
  function StatsFrom(t: Table, pages: seq<Page>, count: nat, now: string): Progress
    requires DashboardPages(pages)
    decreases |pages|
  {
    if |pages| == 0 then Progress(t, count, true)
    else
      DashboardPagesTail(pages);
      var p := CopyStats(t, pages[0].items, count, now);
      if !pages[0].more then p else StatsFrom(p.table, pages[1..], p.count, now)
  }

  /** `migrateDashboard`: the global row first, then the per-user copy. */
  function DashboardPass(t: Table, b: Backend, legacyDashboard: LegacyTable, pages: seq<Page>, now: string): Progress
    requires DashboardPages(pages)
  {
    if b.Unreachable? then Progress(t, 0, false)
    else StatsFrom(t[GlobalStatsKey := GlobalRow(legacyDashboard, now)], pages, 0, now)
  }

  /** How many items are not the reserved `stats` item. */
  function CountNonStats(items: seq<Item>): nat
  {
    if |items| == 0 then 0
    else (if "id" in items[0] && items[0]["id"] == Str(LegacyDashboard.STATS_ID) then 0 else 1)
         + CountNonStats(items[1..])
  }

  lemma CountNonStatsAppend(a: seq<Item>, b: seq<Item>)
    ensures CountNonStats(a + b) == CountNonStats(a) + CountNonStats(b)
  {
    if |a| > 0 {
      assert (a + b)[1..] == a[1..] + b;
      CountNonStatsAppend(a[1..], b);
    } else {
      assert a + b == b;
    }
  }

  /** The per-user copy counts exactly the items that are not `stats`, and
      writes nothing but per-user dashboard rows of ids other than `stats`. */
  lemma {:induction false} CopyStatsSpec(t: Table, items: seq<Item>, count: nat, now: string)
    requires forall j :: 0 <= j < |items| ==> HasStringId(items[j])
    ensures var p := CopyStats(t, items, count, now);
            && p.ok
            && p.count == count + CountNonStats(items)
            && t.Keys <= p.table.Keys
            && forall k :: k in p.table && (k !in t || p.table[k] != t[k]) ==>
                 exists id :: id != LegacyDashboard.STATS_ID && k == UserStatsKey(id)
    decreases |items|
  {
    if |items| > 0 {
      var id := items[0]["id"].s;
      if items[0]["id"] == Str(LegacyDashboard.STATS_ID) {
        CopyStatsSpec(t, items[1..], count, now);
      } else {
        var t1 := t[UserStatsKey(id) := UserStatsRow(items[0], now)];
        CopyStatsSpec(t1, items[1..], count + 1, now);
        var p := CopyStats(t1, items[1..], count + 1, now);
        forall k | k in p.table && (k !in t || p.table[k] != t[k])
          ensures exists id' :: id' != LegacyDashboard.STATS_ID && k == UserStatsKey(id')
        {
          if k in t1 && p.table[k] == t1[k] {
            assert k == UserStatsKey(id);
          }
        }
      }
    }
  }

  /** A successful per-user copy counts the non-`stats` items of the
      responses it requested. */
  lemma {:induction false} StatsFromCounts(t: Table, pages: seq<Page>, count: nat, now: string)
    requires Ends(pages) && DashboardPages(pages)
    ensures StatsFrom(t, pages, count, now).ok
    ensures StatsFrom(t, pages, count, now).count == count + CountNonStats(Flatten(Consumed(pages)))
    decreases |pages|
  {
    DashboardPagesTail(pages);
    var p := CopyStats(t, pages[0].items, count, now);
    CopyStatsSpec(t, pages[0].items, count, now);
    if !pages[0].more {
      assert Consumed(pages) == [pages[0]];
      assert Flatten(Consumed(pages)) == pages[0].items + Flatten([]);
      assert pages[0].items + Flatten([]) == pages[0].items;
    } else {
      assert Ends(pages[1..]) && FirstFinal(pages) == 1 + FirstFinal(pages[1..]);
      StatsFromCounts(p.table, pages[1..], p.count, now);
      assert Consumed(pages) == [pages[0]] + Consumed(pages[1..]);
      assert ([pages[0]] + Consumed(pages[1..]))[1..] == Consumed(pages[1..]);
      CountNonStatsAppend(pages[0].items, Flatten(Consumed(pages[1..])));
    }
  }

  /** The per-user copy, over all the responses it requests, writes nothing
      but per-user dashboard rows of ids other than `stats`. */
  lemma {:induction false} StatsFromWritesOnlyUserStats(t: Table, pages: seq<Page>, count: nat, now: string)
    requires DashboardPages(pages)
    ensures var p := StatsFrom(t, pages, count, now);
            && t.Keys <= p.table.Keys
            && forall k :: k in p.table && (k !in t || p.table[k] != t[k]) ==>
              exists id :: id != LegacyDashboard.STATS_ID && k == UserStatsKey(id)
    decreases |pages|
  {
    if |pages| > 0 {
      DashboardPagesTail(pages);
      CopyStatsSpec(t, pages[0].items, count, now);
      var p := CopyStats(t, pages[0].items, count, now);
      if pages[0].more {
        StatsFromWritesOnlyUserStats(p.table, pages[1..], p.count, now);
      }
    }
  }

  /** The per-user copy puts the row of `item` under `k`. */
  predicate CopiedTo(item: Item, k: Key)
  {
    HasStringId(item) && item["id"] != Str(LegacyDashboard.STATS_ID) && k == UserStatsKey(item["id"].s)
  }

  /** The per-user copy adds exactly the per-user keys of the items that are
      not `stats`. */
  lemma {:induction false} CopyStatsKeys(t: Table, items: seq<Item>, count: nat, now: string)
    requires forall j :: 0 <= j < |items| ==> HasStringId(items[j])
    ensures var p := CopyStats(t, items, count, now);
            forall k :: k in p.table <==> k in t || exists j :: 0 <= j < |items| && CopiedTo(items[j], k)
    decreases |items|
  {
    if |items| > 0 {
      var rest := items[1..];
      assert forall j :: 0 <= j < |rest| ==> rest[j] == items[j + 1];
      var t1 := if items[0]["id"] == Str(LegacyDashboard.STATS_ID) then t
                else t[UserStatsKey(items[0]["id"].s) := UserStatsRow(items[0], now)];
      var c1 := if items[0]["id"] == Str(LegacyDashboard.STATS_ID) then count else count + 1;
      CopyStatsKeys(t1, rest, c1, now);
      var p := CopyStats(t, items, count, now);
      assert p == CopyStats(t1, rest, c1, now);
      forall k | k in p.table
        ensures k in t || exists j :: 0 <= j < |items| && CopiedTo(items[j], k)
      {
        if k !in t1 {
          var j :| 0 <= j < |rest| && CopiedTo(rest[j], k);
          assert CopiedTo(items[j + 1], k);
        } else if k !in t {
          assert CopiedTo(items[0], k);
        }
      }
      forall k | exists j :: 0 <= j < |items| && CopiedTo(items[j], k)
        ensures k in p.table
      {
        var j :| 0 <= j < |items| && CopiedTo(items[j], k);
        if j > 0 {
          assert CopiedTo(rest[j - 1], k);
        }
      }
    }
  }

  /** The per-user copy leaves every row it does not copy to as it was. */
  lemma {:induction false} CopyStatsKeepsOtherRows(t: Table, items: seq<Item>, count: nat, now: string)
    requires forall j :: 0 <= j < |items| ==> HasStringId(items[j])
    ensures var p := CopyStats(t, items, count, now);
            forall k :: k in t && (forall j :: 0 <= j < |items| ==> !CopiedTo(items[j], k)) ==>
              k in p.table && p.table[k] == t[k]
    decreases |items|
  {
    if |items| > 0 {
      var rest := items[1..];
      assert forall j :: 0 <= j < |rest| ==> rest[j] == items[j + 1];
      var t1 := if items[0]["id"] == Str(LegacyDashboard.STATS_ID) then t
                else t[UserStatsKey(items[0]["id"].s) := UserStatsRow(items[0], now)];
      var c1 := if items[0]["id"] == Str(LegacyDashboard.STATS_ID) then count else count + 1;
      CopyStatsKeepsOtherRows(t1, rest, c1, now);
      assert CopyStats(t, items, count, now) == CopyStats(t1, rest, c1, now);
      forall k | k in t && (forall j :: 0 <= j < |items| ==> !CopiedTo(items[j], k))
        ensures k in t1 && t1[k] == t[k]
        ensures forall j :: 0 <= j < |rest| ==> !CopiedTo(rest[j], k)
      {
        assert !CopiedTo(items[0], k);
      }
    }
  }

  /** One item other than `stats` leaves its per-user row under its key,
      unless a later item with the same id overwrites it. */
  lemma {:induction false} CopyStatsWritesRow(t: Table, items: seq<Item>, count: nat, now: string, j: nat)
    requires forall i :: 0 <= i < |items| ==> HasStringId(items[i])
    requires j < |items|
    requires Get(items[j], "id") != Some(Str(LegacyDashboard.STATS_ID))
    requires forall i :: j < i < |items| ==> Get(items[i], "id") != Get(items[j], "id")
    ensures var p := CopyStats(t, items, count, now);
            && UserStatsKey(items[j]["id"].s) in p.table
            && p.table[UserStatsKey(items[j]["id"].s)] == UserStatsRow(items[j], now)
    decreases j
  {
    var rest := items[1..];
    var t1 := if items[0]["id"] == Str(LegacyDashboard.STATS_ID) then t
              else t[UserStatsKey(items[0]["id"].s) := UserStatsRow(items[0], now)];
    var c1 := if items[0]["id"] == Str(LegacyDashboard.STATS_ID) then count else count + 1;
    assert CopyStats(t, items, count, now) == CopyStats(t1, rest, c1, now);
    if j == 0 {
      var id0 := items[0]["id"].s;
      forall i | 0 <= i < |rest|
        ensures !CopiedTo(rest[i], UserStatsKey(id0))
      {
        assert rest[i] == items[i + 1];
        KeysDisjoint(rest[i]["id"].s, id0);
      }
      assert UserStatsKey(id0) in t1;
      CopyStatsKeepsOtherRows(t1, rest, c1, now);
    } else {
      assert rest[j - 1] == items[j];
      forall i | j - 1 < i < |rest|
        ensures rest[i]["id"] != rest[j - 1]["id"]
      {
        assert rest[i] == items[i + 1];
      }
      CopyStatsWritesRow(t1, rest, c1, now, j - 1);
    }
  }

  /** Each item other than `stats` leaves its per-user row under its key,
      unless a later item with the same id overwrites it. */
  lemma CopyStatsWritesRows(t: Table, items: seq<Item>, count: nat, now: string)
    requires forall j :: 0 <= j < |items| ==> HasStringId(items[j])
    ensures var p := CopyStats(t, items, count, now);
            forall j :: 0 <= j < |items| && items[j]["id"] != Str(LegacyDashboard.STATS_ID)
                        && (forall i :: j < i < |items| ==> items[i]["id"] != items[j]["id"]) ==>
              && UserStatsKey(items[j]["id"].s) in p.table
              && p.table[UserStatsKey(items[j]["id"].s)] == UserStatsRow(items[j], now)
  {
    forall j | 0 <= j < |items| && items[j]["id"] != Str(LegacyDashboard.STATS_ID)
               && (forall i :: j < i < |items| ==> items[i]["id"] != items[j]["id"])
      ensures UserStatsKey(items[j]["id"].s) in CopyStats(t, items, count, now).table
      ensures CopyStats(t, items, count, now).table[UserStatsKey(items[j]["id"].s)] == UserStatsRow(items[j], now)
    {
      CopyStatsWritesRow(t, items, count, now, j);
    }
  }

  /** The items the per-user copy sees: those of the responses it requests,
      in scan order, each with its string id. */
  function CopiedItems(pages: seq<Page>): (items: seq<Item>)
    requires Ends(pages) && DashboardPages(pages)
    ensures forall j :: 0 <= j < |items| ==> HasStringId(items[j])
  {
    ConsumedKeeps(pages, HasStringId);
    FlattenKeeps(Consumed(pages), HasStringId);
    Flatten(Consumed(pages))
  }

  /** Copying two runs of items is copying the first, then the second from
      where the first left off. */
  lemma {:induction false} CopyStatsAppend(t: Table, a: seq<Item>, b: seq<Item>, count: nat, now: string)
    requires forall j :: 0 <= j < |a| ==> HasStringId(a[j])
    requires forall j :: 0 <= j < |b| ==> HasStringId(b[j])
    ensures forall j :: 0 <= j < |a + b| ==> HasStringId((a + b)[j])
    ensures var p := CopyStats(t, a, count, now);
            CopyStats(t, a + b, count, now) == CopyStats(p.table, b, p.count, now)
    decreases |a|
  {
    if |a| == 0 {
      assert a + b == b;
    } else {
      assert (a + b)[0] == a[0] && (a + b)[1..] == a[1..] + b;
      var t1 := if a[0]["id"] == Str(LegacyDashboard.STATS_ID) then t
                else t[UserStatsKey(a[0]["id"].s) := UserStatsRow(a[0], now)];
      var c1 := if a[0]["id"] == Str(LegacyDashboard.STATS_ID) then count else count + 1;
      CopyStatsAppend(t1, a[1..], b, c1, now);
    }
  }

  /** The paginated per-user copy is the copy of every item of the responses
      it requests, in scan order. */
  lemma {:induction false} StatsFromCopiesConsumed(t: Table, pages: seq<Page>, count: nat, now: string)
    requires Ends(pages) && DashboardPages(pages)
    ensures StatsFrom(t, pages, count, now) == CopyStats(t, CopiedItems(pages), count, now)
    decreases |pages|
  {
    DashboardPagesTail(pages);
    if !pages[0].more {
      assert Consumed(pages) == [pages[0]];
      assert Flatten(Consumed(pages)) == pages[0].items + Flatten([]);
      assert pages[0].items + Flatten([]) == pages[0].items;
    } else {
      assert Ends(pages[1..]) && FirstFinal(pages) == 1 + FirstFinal(pages[1..]);
      var p := CopyStats(t, pages[0].items, count, now);
      StatsFromCopiesConsumed(p.table, pages[1..], p.count, now);
      assert Consumed(pages) == [pages[0]] + Consumed(pages[1..]);
      assert ([pages[0]] + Consumed(pages[1..]))[1..] == Consumed(pages[1..]);
      assert CopiedItems(pages) == pages[0].items + CopiedItems(pages[1..]);
      CopyStatsAppend(t, pages[0].items, CopiedItems(pages[1..]), count, now);
    }
  }

  /** A reachable `migrateDashboard` adds exactly the global key and the
      per-user keys of the copied items, leaves every other row as it was,
      and leaves under each per-user key the row of the last item with that
      id. */
  lemma DashboardPassRows(t: Table, b: Backend, legacyDashboard: LegacyTable, pages: seq<Page>, now: string)
    requires Ends(pages) && DashboardPages(pages) && b.Reachable?
    ensures var r := DashboardPass(t, b, legacyDashboard, pages, now);
            var items := CopiedItems(pages);
            && (forall k :: k in r.table <==>
                  k in t || k == GlobalStatsKey || exists j :: 0 <= j < |items| && CopiedTo(items[j], k))
            && (forall k :: k in t && k != GlobalStatsKey && (forall j :: 0 <= j < |items| ==> !CopiedTo(items[j], k)) ==>
                  r.table[k] == t[k])
            && r.table[GlobalStatsKey] == GlobalRow(legacyDashboard, now)
            && (forall j :: 0 <= j < |items| && items[j]["id"] != Str(LegacyDashboard.STATS_ID)
                            && (forall i :: j < i < |items| ==> items[i]["id"] != items[j]["id"]) ==>
                  r.table[UserStatsKey(items[j]["id"].s)] == UserStatsRow(items[j], now))
  {
    var t1 := t[GlobalStatsKey := GlobalRow(legacyDashboard, now)];
    StatsFromCopiesConsumed(t1, pages, 0, now);
    var items := CopiedItems(pages);
    assert DashboardPass(t, b, legacyDashboard, pages, now) == CopyStats(t1, items, 0, now);
    CopyStatsKeys(t1, items, 0, now);
    CopyStatsKeepsOtherRows(t1, items, 0, now);
    CopyStatsWritesRows(t1, items, 0, now);
    forall j | 0 <= j < |items|
      ensures !CopiedTo(items[j], GlobalStatsKey)
    {
      KeysDisjoint(items[j]["id"].s, items[j]["id"].s);
    }
  }

  /** `migrateDashboard` fails exactly when the backend does, writing nothing;
      otherwise it leaves the global row built from the legacy `stats` item
      in place and counts the copied items that are not `stats`. */
  lemma DashboardPassSpec(t: Table, b: Backend, legacyDashboard: LegacyTable, pages: seq<Page>, now: string)
    requires Ends(pages) && DashboardPages(pages)
    ensures var r := DashboardPass(t, b, legacyDashboard, pages, now);
            && (r.ok <==> b.Reachable?)
            && (b.Unreachable? ==> r.table == t)
            && (b.Reachable? ==>
                  && GlobalStatsKey in r.table
                  && r.table[GlobalStatsKey] == GlobalRow(legacyDashboard, now)
                  && r.count == CountNonStats(Flatten(Consumed(pages))))
  {
    if b.Reachable? {
      var t1 := t[GlobalStatsKey := GlobalRow(legacyDashboard, now)];
      StatsFromCounts(t1, pages, 0, now);
      StatsFromWritesOnlyUserStats(t1, pages, 0, now);
      forall id: string
        ensures UserStatsKey(id) != GlobalStatsKey
      {
        KeysDisjoint(id, id);
      }
    }
  }

  // ---------------------------------------------------------------------
  // The whole run

  /** The tables the migration sees. */
  datatype Db = Db(main: Table, legacyUsers: LegacyTable, legacyDashboard: LegacyTable)

  /** The end of a run: the tables and the exit status. */
  datatype RunResult = RunResult(db: Db, exitStatus: int)

  /** `main`: ensure the table, migrate users, migrate the dashboard; the
      first error skips the remaining phases and exits with status 1.
      `ensured` says whether ensuring the table completed; `bUsers` and
      `bDashboard` say whether each pass could reach the backend. */
  function Run(db: Db, ensured: bool, bUsers: Backend, bDashboard: Backend,
               userPages: seq<Page>, dashboardPages: seq<Page>, now: string): (r: RunResult)
    requires UserPages(userPages) && DashboardPages(dashboardPages)
    ensures r.db.legacyUsers == db.legacyUsers && r.db.legacyDashboard == db.legacyDashboard
    ensures r.exitStatus == 0 || r.exitStatus == 1
    ensures !ensured ==> r == RunResult(db, 1)
    ensures ensured && !UsersPass(db.main, bUsers, userPages, now).ok ==>
              r == RunResult(db.(main := UsersPass(db.main, bUsers, userPages, now).table), 1)
    ensures ensured && UsersPass(db.main, bUsers, userPages, now).ok ==>
              var dashboard := DashboardPass(UsersPass(db.main, bUsers, userPages, now).table, bDashboard,
                                             db.legacyDashboard, dashboardPages, now);
              && r.db.main == dashboard.table
              && (r.exitStatus == 0 <==> dashboard.ok)
    ensures ensured && UsersPass(db.main, bUsers, userPages, now).ok && bDashboard.Unreachable? ==>
              r == RunResult(db.(main := UsersPass(db.main, bUsers, userPages, now).table), 1)
  {
    if !ensured then RunResult(db, 1)
    else
      var users := UsersPass(db.main, bUsers, userPages, now);
      if !users.ok then RunResult(db.(main := users.table), 1)
      else
        var dashboard := DashboardPass(users.table, bDashboard, db.legacyDashboard, dashboardPages, now);
        RunResult(db.(main := dashboard.table), if dashboard.ok then 0 else 1)
  }


  /** A run exits with status 0 exactly when the table was ensured and both
      passes completed; the rows the users pass left under profile keys then
      survive the dashboard pass, which adds the global row and, for each id
      other than `stats`, the row of the last legacy dashboard item with it. */
  lemma RunSuccessKeepsRows(db: Db, ensured: bool, bUsers: Backend, bDashboard: Backend,
                            userPages: seq<Page>, dashboardPages: seq<Page>, now: string)
    requires UserPages(userPages) && DashboardPages(dashboardPages) && Ends(dashboardPages)
    ensures var r := Run(db, ensured, bUsers, bDashboard, userPages, dashboardPages, now);
            var users := UsersPass(db.main, bUsers, userPages, now);
            var items := CopiedItems(dashboardPages);
            && (r.exitStatus == 0 <==> ensured && users.ok && bDashboard.Reachable?)
            && (r.exitStatus == 0 ==>
                  && (forall id :: ProfileKey(id) in users.table ==>
                        ProfileKey(id) in r.db.main && r.db.main[ProfileKey(id)] == users.table[ProfileKey(id)])
                  && GlobalStatsKey in r.db.main
                  && r.db.main[GlobalStatsKey] == GlobalRow(db.legacyDashboard, now)
                  && (forall j :: 0 <= j < |items| && items[j]["id"] != Str(LegacyDashboard.STATS_ID)
                                  && (forall i :: j < i < |items| ==> items[i]["id"] != items[j]["id"]) ==>
                        UserStatsKey(items[j]["id"].s) in r.db.main
                        && r.db.main[UserStatsKey(items[j]["id"].s)] == UserStatsRow(items[j], now)))
  {
    var users := UsersPass(db.main, bUsers, userPages, now);
    DashboardPassSpec(users.table, bDashboard, db.legacyDashboard, dashboardPages, now);
    if ensured && users.ok && bDashboard.Reachable? {
      DashboardPassRows(users.table, bDashboard, db.legacyDashboard, dashboardPages, now);
      var items := CopiedItems(dashboardPages);
      forall id | ProfileKey(id) in users.table
        ensures forall j :: 0 <= j < |items| ==> !CopiedTo(items[j], ProfileKey(id))
      {
        KeysDisjoint(id, id);
      }
    }
  }


  /** A run that exits with status 0 leaves, under the profile key of each
      requested legacy user, the row of the last item with that id. */
  lemma RunMigratesUsers(db: Db, ensured: bool, bUsers: Backend, bDashboard: Backend,
                         userPages: seq<Page>, dashboardPages: seq<Page>, now: string)
    requires Ends(userPages) && UserPages(userPages)
    requires Ends(dashboardPages) && DashboardPages(dashboardPages)
    ensures var r := Run(db, ensured, bUsers, bDashboard, userPages, dashboardPages, now);
            var items := MigratedItems(userPages);
            r.exitStatus == 0 ==>
              forall j :: 0 <= j < |items| && (forall i :: j < i < |items| ==> items[i]["id"] != items[j]["id"]) ==>
                && ProfileKey(items[j]["id"].s) in r.db.main
                && Some(r.db.main[ProfileKey(items[j]["id"].s)]) == UserRow(items[j], now)
  {
    RunSuccessKeepsRows(db, ensured, bUsers, bDashboard, userPages, dashboardPages, now);
    UsersPassRows(db.main, bUsers, userPages, now);
  }

}
