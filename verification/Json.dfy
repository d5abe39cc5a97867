/** JSON and TOML values once parsed. A table's entries are in the order they're iterated. */
module Json {
  import opened Text

  datatype Value =
    | Null
    | Bool(b: bool)
    | Number(written: string)
    | Str(text: string)
    | Arr(items: seq<Value>)
    | Obj(entries: seq<(string, Value)>)

  /** One step of a path into a value. */
  datatype Step = Key(key: string) | Index(index: nat)

  /** The value of the first entry under `key`; a value that is no table has none. */
  function Get(v: Value, key: string): (r: Option<Value>)
    ensures r.Some? ==> v.Obj? && (key, r.value) in v.entries && r.value < v
  {
    if v.Obj? then
      var found := Lookup(v.entries, key);
      assert found.Some? ==> exists i | 0 <= i < |v.entries| :: v.entries[i] == (key, found.value);
      assert forall i | 0 <= i < |v.entries| :: v.entries[i].1 < v;
      found
    else
      None
  }

  function Lookup(entries: seq<(string, Value)>, key: string): (r: Option<Value>)
    ensures r.Some? ==> (key, r.value) in entries
    ensures r.None? <==> forall e | e in entries :: e.0 != key
  {
    if entries == [] then None
    else if entries[0].0 == key then Some(entries[0].1)
    else Lookup(entries[1..], key)
  }
}
