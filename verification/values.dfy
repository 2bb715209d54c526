/**
 Attribute values and items as the DynamoDB document client hands them to
 JavaScript, with the two JavaScript defaulting operators the services use.
 */
module Values {
  import opened Wrappers

  /** A stored attribute value: a string or a number. Numbers are modelled as
      exact reals; `revenue` is a number that the code only copies. */
  datatype Value = Str(s: string) | Num(n: real)

  /** An item: attribute name to value. An attribute that is not a key of the
      map is `undefined` when read. */
  type Item = map<string, Value>

  /** JavaScript truthiness of a present value: `""` and `0` are falsy. */
  predicate Truthy(v: Value)
  {
    match v
    case Str(s) => s != ""
    case Num(n) => n != 0.0
  }

  /** `item.name`: the attribute, or undefined. */
  function Get(item: Item, name: string): Option<Value>
  {
    if name in item then Some(item[name]) else None
  }

  /** The value under `k`, or `d` when `k` is missing. On an item this is
      JavaScript's `item.name ?? d`: only a missing attribute is replaced.
      On a table it is the item an UpdateItem starts from: the stored one, or,
      when the key is absent, an item holding only the key, since UpdateItem
      creates it. */
  function LookupOr<K, V>(m: map<K, V>, k: K, d: V): (v: V)
    ensures k in m ==> v == m[k]
    ensures k !in m ==> v == d
  {
    if k in m then m[k] else d
  }

  /** `item.name || fallback`: a missing or falsy attribute is replaced. */
  function OrIfFalsy(item: Item, name: string, fallback: Value): (v: Value)
    ensures name in item && Truthy(item[name]) ==> v == item[name]
    ensures name !in item || !Truthy(item[name]) ==> v == fallback
  {
    if name in item && Truthy(item[name]) then item[name] else fallback
  }

  /** `??` and `||` differ exactly on an attribute that is present but falsy:
      `??` keeps it, `||` replaces it. */
  lemma MissingAndFalsyDefaults(item: Item, name: string, fallback: Value)
    ensures name !in item ==> LookupOr(item, name, fallback) == OrIfFalsy(item, name, fallback) == fallback
    ensures name in item && Truthy(item[name]) ==>
              LookupOr(item, name, fallback) == OrIfFalsy(item, name, fallback) == item[name]
    ensures name in item && !Truthy(item[name]) ==>
              LookupOr(item, name, fallback) == item[name] && OrIfFalsy(item, name, fallback) == fallback
    ensures LookupOr(item, name, fallback) != OrIfFalsy(item, name, fallback) <==>
              name in item && !Truthy(item[name]) && item[name] != fallback
  {
  }
}
