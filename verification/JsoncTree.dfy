/**
 The node tree a JSONC parser hands over, and what it denotes (packages/contract/src/jsonc.ts).
 */
module JsoncTree {
  import opened Wrappers
  import opened Texts

  datatype Atom = NullAtom | BoolAtom(truth: bool) | NumberAtom(number: real) | StringAtom(text: Text)

  datatype Node = AtomNode(atom: Atom) | ArrayNode(items: seq<Node>) | ObjectNode(properties: seq<Property>)

  // A property of a broken document may lack its key string or its value.
  datatype Property = Property(key: Option<Text>, slot: Slot)

  datatype Slot = NoValue | Value(node: Node)

  datatype Json = JsonAtom(atom: Atom) | JsonArray(elements: seq<Json>) | JsonObject(entries: map<Text, Json>)

  // A node is identified by its place: the child indices that lead to it.
  type Path = seq<nat>

  function Width(node: Node): nat {
    match node
    case AtomNode(_) => 0
    case ArrayNode(items) => |items|
    case ObjectNode(properties) => |properties|
  }

  function Child(node: Node, i: nat): Slot
    requires i < Width(node)
  {
    if node.ArrayNode? then Value(node.items[i]) else node.properties[i].slot
  }

  function NodeAt(root: Node, path: Path): Slot
    decreases |path|
  {
    if path == [] then Value(root)
    else if path[0] >= Width(root) then NoValue
    else
      match Child(root, path[0])
      case NoValue => NoValue
      case Value(child) => NodeAt(child, path[1..])
  }

  lemma {:induction false} NodeAtChild(root: Node, path: Path, i: nat)
    requires NodeAt(root, path).Value? && i < Width(NodeAt(root, path).node)
    ensures NodeAt(root, path + [i]) == Child(NodeAt(root, path).node, i)
    decreases |path|
  {
    if path == [] {
      assert path + [i] == [i] && [i][1..] == [];
    } else {
      assert (path + [i])[1..] == path[1..] + [i];
      NodeAtChild(Child(root, path[0]).node, path[1..], i);
    }
  }

  // ----- How much traversing a tree costs: a composite node is visited twice -----

  function Size(node: Node): nat
    decreases node, 0
  {
    match node
    case AtomNode(_) => 1
    case ArrayNode(items) => 2 + ItemsSize(items, 0)
    case ObjectNode(properties) => 2 + PropertiesSize(properties, 0)
  }

  function ItemsSize(items: seq<Node>, from: nat): nat
    requires from <= |items|
    decreases items, |items| - from
  {
    if from == |items| then 0 else Size(items[from]) + ItemsSize(items, from + 1)
  }

  function PropertiesSize(properties: seq<Property>, from: nat): nat
    requires from <= |properties|
    decreases properties, |properties| - from
  {
    if from == |properties| then 0 else PropertySize(properties[from]) + PropertiesSize(properties, from + 1)
  }

  function SlotSize(slot: Slot): nat
    decreases slot
  {
    match slot
    case NoValue => 0
    case Value(node) => Size(node)
  }

  function PropertySize(property: Property): nat
    decreases property
  {
    SlotSize(property.slot)
  }

  function ChildrenSize(node: Node, from: nat): nat
    requires from <= Width(node)
  {
    match node
    case AtomNode(_) => 0
    case ArrayNode(items) => ItemsSize(items, from)
    case ObjectNode(properties) => PropertiesSize(properties, from)
  }

  lemma ChildrenSizeStep(node: Node, from: nat)
    requires from < Width(node)
    ensures ChildrenSize(node, from) == SlotSize(Child(node, from)) + ChildrenSize(node, from + 1)
  {
    if node.ArrayNode? {
      assert ItemsSize(node.items, from) == Size(node.items[from]) + ItemsSize(node.items, from + 1);
    } else {
      assert PropertySize(node.properties[from]) == SlotSize(node.properties[from].slot);
    }
  }

  // ----- The recursive meaning of a node tree -----

  function Denote(node: Node): Json
    decreases node, 0
  {
    match node
    case AtomNode(atom) => JsonAtom(atom)
    case ArrayNode(items) => JsonArray(DenoteItems(items, |items|))
    case ObjectNode(properties) => JsonObject(DenoteProperties(properties, |properties|))
  }

  function DenoteItems(items: seq<Node>, k: nat): seq<Json>
    requires k <= |items|
    decreases items, k
  {
    if k == 0 then [] else DenoteItems(items, k - 1) + [Denote(items[k - 1])]
  }

  // A later property overwrites an earlier one of the same key.
  function DenoteProperties(properties: seq<Property>, k: nat): map<Text, Json>
    requires k <= |properties|
    decreases properties, k
  {
    if k == 0 then map[]
    else
      var p := properties[k - 1];
      WithProperty(DenoteProperties(properties, k - 1), p.key, DenoteProperty(p))
  }

  function DenoteProperty(property: Property): Option<Json>
    decreases property
  {
    match property.slot
    case NoValue => None
    case Value(node) => Some(Denote(node))
  }

  function WithProperty(entries: map<Text, Json>, key: Option<Text>, value: Option<Json>): map<Text, Json> {
    if key.Some? && value.Some? then entries[key.value := value.value] else entries
  }
}
