/** JSON values as the Python backend holds them: the data of guards, actions and rules. */
module Json {
  import opened Wrappers

  datatype Json =
    | Null
    | Bool(b: bool)
    | Number(n: real)
    | Str(s: string)
    | Arr(items: seq<Json>)
    | Obj(entries: seq<Entry>)

  /** One key of an object with its value. A parsed object names each key once. */
  datatype Entry = Entry(key: string, value: Json)

  predicate HasKey(entries: seq<Entry>, key: string) {
    exists i :: 0 <= i < |entries| && entries[i].key == key
  }

  /** The value of a key, or None; `Null` is a value. */
  function Get(entries: seq<Entry>, key: string): (r: Option<Json>)
    ensures r.Some? <==> HasKey(entries, key)
    ensures r.Some? ==> exists i :: 0 <= i < |entries| && entries[i] == Entry(key, r.value)
  {
    if entries == [] then None
    else if entries[0].key == key then
      assert entries[0] == Entry(key, entries[0].value);
      Some(entries[0].value)
    else
      var r := Get(entries[1..], key);
      assert r.Some? ==> exists i :: 0 <= i < |entries[1..]| && entries[1..][i] == entries[i + 1] == Entry(key, r.value);
      assert forall i :: 0 <= i < |entries[1..]| ==> entries[1..][i] == entries[i + 1];
      r
  }

  /** `dict.get`: a missing key reads as null. */
  function GetOrNull(entries: seq<Entry>, key: string): Json {
    Get(entries, key).GetOr(Null)
  }

  /** Python truthiness of a JSON value: false for null, false, zero and what is empty. */
  predicate Truthy(v: Json)
    ensures Truthy(v) <==> v !in [Null, Bool(false), Number(0.0), Str(""), Arr([]), Obj([])]
  {
    match v
    case Null => false
    case Bool(b) => b
    case Number(n) => n != 0.0
    case Str(s) => s != ""
    case Arr(items) => items != []
    case Obj(entries) => entries != []
  }

  predicate NonEmptyString(v: Json) {
    v.Str? && v.s != ""
  }

  /** A list or an object; Python cannot hash it. */
  predicate Unhashable(v: Json) {
    v.Arr? || v.Obj?
  }

  // -- size, the measure of every recursion over the tree -----------------------------------------

  function Size(v: Json): (n: nat)
    ensures n > 0
  {
    match v
    case Arr(items) => 1 + SizeOfAll(items)
    case Obj(entries) => 1 + SizeOfEntries(entries)
    case _ => 1
  }

  function SizeOfAll(items: seq<Json>): (n: nat)
    ensures forall i :: 0 <= i < |items| ==> Size(items[i]) <= n
  {
    if items == [] then 0 else Size(items[0]) + SizeOfAll(items[1..])
  }

  function SizeOfEntries(entries: seq<Entry>): (n: nat)
    ensures forall i :: 0 <= i < |entries| ==> Size(entries[i].value) <= n
  {
    if entries == [] then 0 else Size(entries[0].value) + SizeOfEntries(entries[1..])
  }

  /** The arguments of an operator: a list, or a single value in its place. */
  function Operands(value: Json): (args: seq<Json>)
    ensures SizeOfAll(args) <= Size(value)
    ensures if value.Arr? then value == Arr(args) else args == [value]
  {
    if value.Arr? then value.items else assert SizeOfAll([value]) == Size(value) + SizeOfAll([]); [value]
  }
}
