/** Parsed YAML documents, as the validator sees them through yaml-cpp. */
module Yaml {
  import opened Base
  import opened Scalars

  /**
   A node. A scalar is `text` when it was quoted, a block scalar or tagged !!str;
   maps keep their entries in document order, so a repeated key can be expressed.
   */
  datatype Node =
    | NullNode
    | ScalarNode(raw: string, text: bool)
    | SequenceNode(items: seq<Node>)
    | MapNode(entries: seq<(Node, Node)>)

  function Resolve(lib: Library, node: Node): Resolved {
    match node
    case NullNode => RNull
    case ScalarNode(raw, true) => RString(raw)
    case ScalarNode(raw, false) => ResolvePlain(lib, raw)
    case _ => NonScalar
  }

  predicate KeyedBy(entry: (Node, Node), key: string) {
    entry.0.ScalarNode? && entry.0.raw == key
  }

  /** `node[key]`: the first entry with that scalar key. */
  function Get(entries: seq<(Node, Node)>, key: string): (r: Option<Node>)
    ensures r.Some? ==> exists i | 0 <= i < |entries| :: KeyedBy(entries[i], key) && r.value == entries[i].1
    ensures r.None? ==> forall i | 0 <= i < |entries| :: !KeyedBy(entries[i], key)
  {
    if entries == [] then None
    else if KeyedBy(entries[0], key) then Some(entries[0].1)
    else Get(entries[1..], key)
  }

  /** It is the first: nothing before it has the key. */
  lemma {:induction false} GetIsFirst(entries: seq<(Node, Node)>, key: string)
    ensures forall i | 0 <= i < |entries| && KeyedBy(entries[i], key) && (forall j | 0 <= j < i :: !KeyedBy(entries[j], key)) ::
      Get(entries, key) == Some(entries[i].1)
  {
    if entries != [] && !KeyedBy(entries[0], key) {
      GetIsFirst(entries[1..], key);
      forall i | 0 <= i < |entries| && KeyedBy(entries[i], key) && (forall j | 0 <= j < i :: !KeyedBy(entries[j], key))
        ensures Get(entries, key) == Some(entries[i].1)
      {
        assert entries[i] == entries[1..][i - 1];
        assert forall j | 0 <= j < i - 1 :: entries[1..][j] == entries[j + 1];
      }
    }
  }

  predicate Has(entries: seq<(Node, Node)>, key: string) {
    exists i | 0 <= i < |entries| :: KeyedBy(entries[i], key)
  }

  // ---- typed extraction -----------------------------------------------------------

  function AsString(lib: Library, node: Node): Option<string> {
    var r := Resolve(lib, node);
    if r.RString? then Some(r.s) else None
  }

  function AsInt64(lib: Library, node: Node): Option<int> {
    IntegerOf(Resolve(lib, node))
  }

  function AsDouble(lib: Library, node: Node): Option<Float> {
    match Resolve(lib, node)
    case RInt(n) => Some(Finite(DoubleOfInt(n) as real))
    case RFloat(f) => Some(f)
    case _ => None
  }

  function AsBool(lib: Library, node: Node): Option<bool> {
    var r := Resolve(lib, node);
    if r.RBool? then Some(r.b) else None
  }

  function ParseI2cAddress(lib: Library, node: Node): Option<int> {
    I2cAddressOf(Resolve(lib, node))
  }
}
