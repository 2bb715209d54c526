/**
 The storage backend as pure values: a table is a map from primary key to
 item, and an operation returns the table after its writes together with its
 result. A scan's order is the backend's choice.
 */
module Storage {
  import opened Values

  /** Primary key of the single table: partition key `PK`, sort key `SK`. */
  datatype Key = Key(pk: string, sk: string)

  /** The single table. */
  type Table = map<Key, Item>

  /** A legacy table, keyed by its string attribute `id`. */
  type LegacyTable = map<string, Item>

  /** Whether the backend answers this call. `Unreachable` stands for every
      failure the source only catches (transport, throttling, validation). */
  datatype Backend = Reachable | Unreachable

  /** The table after an operation, with the operation's result. */
  datatype Step<K, T> = Step(table: map<K, Item>, result: T)

  /** The key attributes every item of the single table carries. */
  function KeyItem(k: Key): Item
  {
    map["PK" := Str(k.pk), "SK" := Str(k.sk)]
  }

  /** The item carries `k` as its `PK` and `SK` attributes. */
  predicate Carries(item: Item, k: Key)
  {
    "PK" in item && item["PK"] == Str(k.pk) && "SK" in item && item["SK"] == Str(k.sk)
  }

  /** Every item of the single table holds its own key attributes. */
  ghost predicate WellKeyed(t: Table)
  {
    forall k :: k in t ==> Carries(t[k], k)
  }

  /** Every item of a legacy table holds its key as the string attribute `id`. */
  ghost predicate LegacyKeyed(t: LegacyTable)
  {
    forall id :: id in t ==> "id" in t[id] && t[id]["id"] == Str(id)
  }

  /** An UpdateItem at a key the single table does not hold starts from an
      item with nothing but that key's `PK` and `SK`. */
  lemma FreshUpsertHoldsOnlyKey(t: Table, k: Key)
    requires k !in t
    ensures LookupOr(t, k, KeyItem(k)).Keys == {"PK", "SK"}
    ensures Carries(LookupOr(t, k, KeyItem(k)), k)
  {
  }

  /** The item appears in secondary index GSI1 under partition key `gsiPk`
      (an item lacking either index key attribute is not indexed). */
  predicate IndexedUnder(item: Item, gsiPk: string)
  {
    "GSI1PK" in item && item["GSI1PK"] == Str(gsiPk) && "GSI1SK" in item && item["GSI1SK"].Str?
  }

  /** The keys of a table, each once, in the order a scan returns them. */
  method ScanKeys<K>(t: map<K, Item>) returns (ks: seq<K>)
    ensures |ks| == |t|
    ensures forall k :: k in ks <==> k in t
    ensures forall i, j :: 0 <= i < j < |ks| ==> ks[i] != ks[j]
  {
    ks := [];
    var rest := t.Keys;
    while rest != {}
      invariant rest <= t.Keys
      invariant forall k :: k in ks <==> k in t && k !in rest
      invariant forall i, j :: 0 <= i < j < |ks| ==> ks[i] != ks[j]
      invariant |ks| + |rest| == |t|
      decreases rest
    {
      var k :| k in rest;
      ks := ks + [k];
      rest := rest - {k};
    }
  }
}
