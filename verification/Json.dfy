/** The tree that cJSON builds and prints, as values. The chain of children that a
    container's `child` points to is a sequence; a string is its C string content. */
module JsonTree {
  import opened Bytes

  datatype Member = Member(key: bytes, value: Json)

  datatype Json =
    | Null
    | False
    | True
    | Number(valuedouble: real)
    | String(text: bytes)
    | Array(items: seq<Json>)
    | Object(members: seq<Member>)

  /** CJSON_NESTING_LIMIT */
  const NESTING_LIMIT: nat := 1000

  function Max(a: nat, b: nat): nat {
    if a >= b then a else b
  }

  /** How many containers lie inside one another. */
  function Nesting(v: Json): nat {
    match v
    case Array(items) => 1 + NestingOfItems(items)
    case Object(members) => 1 + NestingOfMembers(members)
    case _ => 0
  }

  function NestingOfItems(items: seq<Json>): nat {
    if items == [] then 0 else Max(Nesting(items[0]), NestingOfItems(items[1..]))
  }

  function NestingOfMembers(members: seq<Member>): nat {
    if members == [] then 0 else Max(Nesting(members[0].value), NestingOfMembers(members[1..]))
  }

  /** Integers of at most 15 digits: the numbers that "%1.15g" prints in plain decimal. */
  const PLAIN_LIMIT: int := 1_000_000_000_000_000

  predicate PlainInteger(d: real) {
    d == d.Floor as real && -PLAIN_LIMIT < d.Floor < PLAIN_LIMIT
  }

  /** The trees whose printed form the model describes. */
  predicate Printable(v: Json) {
    match v
    case Number(d) => PlainInteger(d)
    case String(text) => NulFree(text)
    case Array(items) => PrintableItems(items)
    case Object(members) => PrintableMembers(members)
    case _ => true
  }

  predicate PrintableItems(items: seq<Json>) {
    items == [] || (Printable(items[0]) && PrintableItems(items[1..]))
  }

  predicate PrintableMembers(members: seq<Member>) {
    members == []
    || (NulFree(members[0].key) && Printable(members[0].value) && PrintableMembers(members[1..]))
  }

  /** The conversion of a double to `int`, which drops the fraction. */
  function Truncate(d: real): int {
    if d >= 0.0 then d.Floor else -((-d).Floor)
  }

  /** `valueint` as parse_number derives it from `valuedouble`. */
  function ValueInt(d: real): (n: int)
    ensures INT_MIN <= n <= INT_MAX
    ensures 0.0 <= d <= INT_MAX as real ==> n as real <= d < n as real + 1.0
    ensures INT_MIN as real <= d <= 0.0 ==> n as real - 1.0 < d <= n as real
    ensures d > INT_MAX as real ==> n == INT_MAX
    ensures d < INT_MIN as real ==> n == INT_MIN
  {
    if d >= INT_MAX as real then INT_MAX
    else if d <= INT_MIN as real then INT_MIN
    else Truncate(d)
  }
}
