/**
 JSON values as `src/cJSON.c` represents them: an item's `valuedouble` as a real, its
 `valuestring` and `string` as C strings, its child list in order.
 */
module Json {
  import opened Bytes

  datatype Json =
    | Null
    | False
    | True
    | Number(value: real)
    | String(s: cstring)
    | Array(items: seq<Json>)
    | Object(members: seq<Member>)

  datatype Member = Member(key: cstring, value: Json)

  const INT_MAX: int := 0x7FFF_FFFF
  const INT_MIN: int := -0x8000_0000
  const NESTING_LIMIT: nat := 1000

  function Truncate(d: real): int {
    if d >= 0.0 then d.Floor else -((-d).Floor)
  }

  /** The `valueint` that goes with a `valuedouble`: saturated, else truncated. */
  function ValueInt(d: real): (n: int)
    ensures INT_MIN <= n <= INT_MAX
  {
    if d >= INT_MAX as real then INT_MAX
    else if d <= INT_MIN as real then INT_MIN
    else Truncate(d)
  }

  /** Within the range of a C integer, the integer next to the number on the side of zero. */
  lemma ValueIntIs(d: real)
    ensures -2147483648.0 < d < 2147483647.0 ==>
      if d >= 0.0 then ValueInt(d) as real <= d < ValueInt(d) as real + 1.0
      else ValueInt(d) as real - 1.0 < d <= ValueInt(d) as real
    ensures d >= 2147483647.0 ==> ValueInt(d) == 2147483647
    ensures d <= -2147483648.0 ==> ValueInt(d) == -2147483648
  {
  }

  /** The numbers that `print_number` renders with `%d`. */
  predicate IsInt32(d: real) {
    d == ValueInt(d) as real
  }

  /** Every number in the value is rendered with `%d`. */
  predicate AllInts(t: Json)
    decreases t, 0
  {
    match t
    case Number(d) => IsInt32(d)
    case Array(items) => ItemsAllInts(items)
    case Object(members) => MembersAllInts(members)
    case _ => true
  }

  predicate ItemsAllInts(items: seq<Json>)
    decreases items, 1
  {
    items != [] ==> AllInts(items[0]) && ItemsAllInts(items[1..])
  }

  predicate MembersAllInts(members: seq<Member>)
    decreases members, 1
  {
    members != [] ==> AllInts(members[0].value) && MembersAllInts(members[1..])
  }

  function MaxOf(a: nat, b: nat): nat {
    if a > b then a else b
  }

  /** How deeply arrays and objects nest; a scalar has nesting 0. */
  function Nesting(t: Json): nat
    decreases t, 0
  {
    match t
    case Array(items) => 1 + ItemsNesting(items)
    case Object(members) => 1 + MembersNesting(members)
    case _ => 0
  }

  function ItemsNesting(items: seq<Json>): nat
    decreases items, 1
  {
    if items == [] then 0 else MaxOf(Nesting(items[0]), ItemsNesting(items[1..]))
  }

  function MembersNesting(members: seq<Member>): nat
    decreases members, 1
  {
    if members == [] then 0 else MaxOf(Nesting(members[0].value), MembersNesting(members[1..]))
  }

  /** The number of values in a tree, the measure of the recursive walks. */
  function Nodes(t: Json): (n: nat)
    ensures n > 0
    decreases t, 0
  {
    match t
    case Array(items) => 1 + ItemsNodes(items)
    case Object(members) => 1 + MembersNodes(members)
    case _ => 1
  }

  function ItemsNodes(items: seq<Json>): nat
    decreases items, 1
  {
    if items == [] then 0 else Nodes(items[0]) + ItemsNodes(items[1..])
  }

  function MembersNodes(members: seq<Member>): nat
    decreases members, 1
  {
    if members == [] then 0 else Nodes(members[0].value) + MembersNodes(members[1..])
  }
}
