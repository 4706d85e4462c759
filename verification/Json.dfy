/**
 The deterministic JSON tree the config toolkit builds before printing
 (src/anolis/provider_sdk/config.cpp:28-45). Strings are byte strings: each
 char stands for one byte.
 */
module Json {
  import opened Base

  datatype Json =
    | Bool(b: bool)
    | Int(i: int)
    | Double(v: real)
    | Str(s: string)
    | Obj(entries: seq<(string, Json)>)
    | Arr(items: seq<Json>)

  /** The first value stored under `key`. */
  function Lookup(entries: seq<(string, Json)>, key: string): (r: Option<Json>)
    ensures r.Some? ==> (key, r.value) in entries
    ensures r.None? ==> forall e | e in entries :: e.0 != key
  {
    if entries == [] then None
    else if entries[0].0 == key then Some(entries[0].1)
    else Lookup(entries[1..], key)
  }

  lemma EntrySmaller(j: Json, e: (string, Json))
    requires j.Obj? && e in j.entries
    ensures e.1 < j
  {
    var i :| 0 <= i < |j.entries| && j.entries[i] == e;
  }

  function Strings(ss: seq<string>): seq<Json> {
    seq(|ss|, i requires 0 <= i < |ss| => Str(ss[i]))
  }
}
