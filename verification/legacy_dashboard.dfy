/**
 The legacy dashboard service: a table keyed by `id` whose row `stats` holds
 the global counters. The row is created zeroed on first read; counters are
 adjusted by read-modify-write; write errors are logged and swallowed.
 */
module LegacyDashboard {
  import opened Wrappers
  import opened Values
  import opened Storage

  const STATS_ID: string := "stats"
  const TOTAL_USERS: string := "totalUsers"
  const ACTIVE_USERS: string := "activeUsers"
  const TOTAL_ORDERS: string := "totalOrders"
  const REVENUE: string := "revenue"
  const LAST_UPDATED: string := "lastUpdated"

  /** The stats record `getDashboardStats` writes and returns when the row is
      missing. */
  function DefaultStats(now: string): Item
  {
    map["id" := Str(STATS_ID), TOTAL_USERS := Num(0.0), ACTIVE_USERS := Num(0.0),
        TOTAL_ORDERS := Num(0.0), REVENUE := Num(0.0), LAST_UPDATED := Str(now)]
  }

  /** `(stats.name || 0)` as a number: a missing, empty or zero counter reads
      as 0. */
  function Counter(item: Item, name: string): real
  {
    if name in item && item[name].Num? then item[name].n else 0.0
  }

  /** The key a put of `stats` goes to: its string `id`, if it has one. */
  function PutKey(stats: Item): Option<string>
  {
    if "id" in stats && stats["id"].Str? then Some(stats["id"].s) else None
  }

  /** `updateStats`: puts `{...stats, lastUpdated: now}` under its `id`; a put
      that fails (backend error, missing or non-string key) changes nothing
      and is not reported. */
  function UpdateStats(t: LegacyTable, b: Backend, stats: Item, now: string): (t': LegacyTable)
    ensures b.Unreachable? || PutKey(stats).None? ==> t' == t
    ensures b.Reachable? && PutKey(stats).Some? ==>
              var id := PutKey(stats).value;
              && t'.Keys == t.Keys + {id}
              && (forall k :: k in t && k != id ==> t'[k] == t[k])
              && Get(t'[id], LAST_UPDATED) == Some(Str(now))
              && (forall a :: a != LAST_UPDATED ==> Get(t'[id], a) == Get(stats, a))
  {
    if b.Unreachable? || PutKey(stats).None? then t
    else t[PutKey(stats).value := stats[LAST_UPDATED := Str(now)]]
  }

  /** `getDashboardStats`: the `stats` row unchanged and without a write when
      present; otherwise the zeroed default, written first; the seed stats
      when the backend fails. */
  function GetDashboardStats(t: LegacyTable, b: Backend, now: string, seedStats: Item): (r: Step<string, Item>)
    ensures b.Unreachable? ==> r.table == t && r.result == seedStats
    ensures b.Reachable? && STATS_ID in t ==> r.table == t && r.result == t[STATS_ID]
    ensures b.Reachable? && STATS_ID !in t ==>
              && r.result == DefaultStats(now)
              && r.table == t[STATS_ID := r.result]
              && Counter(r.result, TOTAL_USERS) == 0.0 && Counter(r.result, ACTIVE_USERS) == 0.0
              && Counter(r.result, TOTAL_ORDERS) == 0.0 && r.result[REVENUE] == Num(0.0)
  {
    if b.Unreachable? then Step(t, seedStats)
    else if STATS_ID in t then Step(t, t[STATS_ID])
    else
      var defaults := DefaultStats(now);
      assert defaults[LAST_UPDATED := Str(now)] == defaults;
      Step(UpdateStats(t, b, defaults, now), defaults)
  }

  /** The row the counter operations start from: the stored one, or the
      default a missing row is initialised with. */
  function CurrentStats(t: LegacyTable, now: string): Item
  {
    if STATS_ID in t then t[STATS_ID] else DefaultStats(now)
  }

  /** `incrementUserCount`: read the stats, add one to `totalUsers` and
      `activeUsers`, write everything back. */
  function IncrementUserCount(t: LegacyTable, b: Backend, now: string, seedStats: Item): (t': LegacyTable)
    requires LegacyKeyed(t)
    ensures b.Unreachable? ==> t' == t
    ensures b.Reachable? ==>
              var before := CurrentStats(t, now);
              && t'.Keys == t.Keys + {STATS_ID}
              && (forall k :: k in t && k != STATS_ID ==> t'[k] == t[k])
              && Get(t'[STATS_ID], TOTAL_USERS) == Some(Num(Counter(before, TOTAL_USERS) + 1.0))
              && Get(t'[STATS_ID], ACTIVE_USERS) == Some(Num(Counter(before, ACTIVE_USERS) + 1.0))
              && Get(t'[STATS_ID], LAST_UPDATED) == Some(Str(now))
              && (forall a :: a != TOTAL_USERS && a != ACTIVE_USERS && a != LAST_UPDATED
                    ==> Get(t'[STATS_ID], a) == Get(before, a))
  {
    var read := GetDashboardStats(t, b, now, seedStats);
    var stats := read.result;
    var bumped := stats[TOTAL_USERS := Num(Counter(stats, TOTAL_USERS) + 1.0)]
                       [ACTIVE_USERS := Num(Counter(stats, ACTIVE_USERS) + 1.0)];
    assert b.Reachable? ==> PutKey(bumped) == Some(STATS_ID);
    UpdateStats(read.table, b, bumped, now)
  }

  /** `Math.max(0, x - 1)`. */
  function DecrementFloored(x: real): real
  {
    if x - 1.0 < 0.0 then 0.0 else x - 1.0
  }

  /** `decrementUserCount`: read the stats, lower `totalUsers` and
      `activeUsers` by one but never below zero, write everything back. */
  function DecrementUserCount(t: LegacyTable, b: Backend, now: string, seedStats: Item): (t': LegacyTable)
    requires LegacyKeyed(t)
    ensures b.Unreachable? ==> t' == t
    ensures b.Reachable? ==>
              var before := CurrentStats(t, now);
              && t'.Keys == t.Keys + {STATS_ID}
              && (forall k :: k in t && k != STATS_ID ==> t'[k] == t[k])
              && Counter(t'[STATS_ID], TOTAL_USERS) >= 0.0
              && Counter(t'[STATS_ID], ACTIVE_USERS) >= 0.0
              && (Counter(before, TOTAL_USERS) >= 1.0 ==>
                    Get(t'[STATS_ID], TOTAL_USERS) == Some(Num(Counter(before, TOTAL_USERS) - 1.0)))
              && (Counter(before, TOTAL_USERS) < 1.0 ==> Get(t'[STATS_ID], TOTAL_USERS) == Some(Num(0.0)))
              && (Counter(before, ACTIVE_USERS) >= 1.0 ==>
                    Get(t'[STATS_ID], ACTIVE_USERS) == Some(Num(Counter(before, ACTIVE_USERS) - 1.0)))
              && (Counter(before, ACTIVE_USERS) < 1.0 ==> Get(t'[STATS_ID], ACTIVE_USERS) == Some(Num(0.0)))
              && Get(t'[STATS_ID], LAST_UPDATED) == Some(Str(now))
              && (forall a :: a != TOTAL_USERS && a != ACTIVE_USERS && a != LAST_UPDATED
                    ==> Get(t'[STATS_ID], a) == Get(before, a))
  {
    var read := GetDashboardStats(t, b, now, seedStats);
    var stats := read.result;
    var lowered := stats[TOTAL_USERS := Num(DecrementFloored(Counter(stats, TOTAL_USERS)))]
                        [ACTIVE_USERS := Num(DecrementFloored(Counter(stats, ACTIVE_USERS)))];
    assert b.Reachable? ==> PutKey(lowered) == Some(STATS_ID);
    UpdateStats(read.table, b, lowered, now)
  }

  /** Starting without a stats row, one increment gives one total and one
      active user; two further decrements bring both to zero, not below. */
  lemma IncrementThenTwoDecrements(t: LegacyTable, now: string, seedStats: Item)
    requires LegacyKeyed(t) && STATS_ID !in t
    ensures var t1 := IncrementUserCount(t, Reachable, now, seedStats);
            && Get(t1[STATS_ID], TOTAL_USERS) == Some(Num(1.0))
            && Get(t1[STATS_ID], ACTIVE_USERS) == Some(Num(1.0))
            && LegacyKeyed(t1)
            && var t2 := DecrementUserCount(t1, Reachable, now, seedStats);
               && LegacyKeyed(t2)
               && var t3 := DecrementUserCount(t2, Reachable, now, seedStats);
                  && Get(t3[STATS_ID], TOTAL_USERS) == Some(Num(0.0))
                  && Get(t3[STATS_ID], ACTIVE_USERS) == Some(Num(0.0))
  {
    var t1 := IncrementUserCount(t, Reachable, now, seedStats);
    CountersKeepKeyed(t, now, seedStats);
    assert CurrentStats(t, now) == DefaultStats(now);
    assert Counter(t1[STATS_ID], TOTAL_USERS) == 1.0;
    assert Counter(t1[STATS_ID], ACTIVE_USERS) == 1.0;
    TwoDecrementsFromOne(t1, now, seedStats);
  }

  /** From one total and one active user, two decrements give zero of each. */
  lemma TwoDecrementsFromOne(t: LegacyTable, now: string, seedStats: Item)
    requires LegacyKeyed(t) && STATS_ID in t
    requires Counter(t[STATS_ID], TOTAL_USERS) == 1.0 && Counter(t[STATS_ID], ACTIVE_USERS) == 1.0
    ensures var t2 := DecrementUserCount(t, Reachable, now, seedStats);
            && LegacyKeyed(t2)
            && var t3 := DecrementUserCount(t2, Reachable, now, seedStats);
               && Get(t3[STATS_ID], TOTAL_USERS) == Some(Num(0.0))
               && Get(t3[STATS_ID], ACTIVE_USERS) == Some(Num(0.0))
  {
    CountersKeepKeyed(t, now, seedStats);
    var t2 := DecrementUserCount(t, Reachable, now, seedStats);
    assert CurrentStats(t2, now) == t2[STATS_ID];
    assert Counter(t2[STATS_ID], TOTAL_USERS) == 0.0;
    assert Counter(t2[STATS_ID], ACTIVE_USERS) == 0.0;
  }

  /** The counter operations keep the table keyed by `id`. */
  lemma CountersKeepKeyed(t: LegacyTable, now: string, seedStats: Item)
    requires LegacyKeyed(t)
    ensures LegacyKeyed(IncrementUserCount(t, Reachable, now, seedStats))
    ensures LegacyKeyed(DecrementUserCount(t, Reachable, now, seedStats))
  {
    var before := CurrentStats(t, now);
    assert Get(before, "id") == Some(Str(STATS_ID));
    var t1 := IncrementUserCount(t, Reachable, now, seedStats);
    assert Get(t1[STATS_ID], "id") == Some(Str(STATS_ID));
    var t2 := DecrementUserCount(t, Reachable, now, seedStats);
    assert Get(t2[STATS_ID], "id") == Some(Str(STATS_ID));
  }

  /** With non-negative counters, an increment followed by a decrement gives
      `totalUsers` and `activeUsers` their former values. */
  lemma IncrementThenDecrementRestores(t: LegacyTable, now: string, seedStats: Item)
    requires LegacyKeyed(t)
    requires Counter(CurrentStats(t, now), TOTAL_USERS) >= 0.0
    requires Counter(CurrentStats(t, now), ACTIVE_USERS) >= 0.0
    ensures var t1 := IncrementUserCount(t, Reachable, now, seedStats);
            LegacyKeyed(t1)
            && var t2 := DecrementUserCount(t1, Reachable, now, seedStats);
               && Counter(t2[STATS_ID], TOTAL_USERS) == Counter(CurrentStats(t, now), TOTAL_USERS)
               && Counter(t2[STATS_ID], ACTIVE_USERS) == Counter(CurrentStats(t, now), ACTIVE_USERS)
  {
    CountersKeepKeyed(t, now, seedStats);
    var t1 := IncrementUserCount(t, Reachable, now, seedStats);
    assert CurrentStats(t1, now) == t1[STATS_ID];
  }

  /** A record with id `stats` stored by `updateStats` is what
      `getDashboardStats` returns afterwards, at any time and without a further
      write: every field as given, with `lastUpdated` at the time of the put. */
  lemma UpdateStatsThenGet(t: LegacyTable, stats: Item, now: string, later: string, seedStats: Item)
    requires PutKey(stats) == Some(STATS_ID)
    ensures var t1 := UpdateStats(t, Reachable, stats, now);
            var r := GetDashboardStats(t1, Reachable, later, seedStats);
            && r.table == t1
            && Get(r.result, LAST_UPDATED) == Some(Str(now))
            && (forall a :: a != LAST_UPDATED ==> Get(r.result, a) == Get(stats, a))
  {
  }
}
