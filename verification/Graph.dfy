/**
 * Value graphs: the references and node records of a StateCapsule, and the quotas that bound them.
 * A graph names its nodes by position; the same records keyed by address make a heap.
 */
module Graph {
  import opened BigEndian

  datatype Ref =
    | Nil
    | False
    | True
    | Int(i: int)
    | Float(bits: nat)
    | Symbol(name: Bytes)
    | Node(id: nat)

  datatype Kind = StringKind | ArrayKind | HashKind

  /** One node record. A hash lists key, value, key, value, ... and then its default, if it has one. */
  datatype Obj = Obj(kind: Kind, frozen: bool, hasDefault: bool, bytes: Bytes, refs: seq<Ref>)

  datatype Graph = Graph(objs: seq<Obj>, root: Ref)

  /** artifact.zig, CapsuleLimits. */
  datatype Limits = Limits(
    encodedBytes: nat, nodes: nat, edges: nat, depth: nat, stringBytes: nat, symbolBytes: nat)

  const MAX_SYMBOL_NAME_BYTES: nat := 0xFFFE

  /** The values a reference can hold at its declared integer widths. */
  predicate RefFits(r: Ref) {
    match r
    case Int(i) => -0x8000_0000_0000_0000 <= i < 0x8000_0000_0000_0000
    case Float(bits) => bits < U64
    case Symbol(name) => |name| < U32
    case Node(id) => id < U32
    case _ => true
  }

  predicate RefsFit(refs: seq<Ref>) {
    refs == [] || (RefFits(refs[0]) && RefsFit(refs[1..]))
  }

  function DefaultEdges(o: Obj): nat {
    if o.hasDefault then 1 else 0
  }

  /** Which fields a node of each kind uses. */
  predicate Shaped(o: Obj) {
    match o.kind
    case StringKind => !o.hasDefault && o.refs == []
    case ArrayKind => !o.hasDefault && o.bytes == []
    case HashKind => o.bytes == [] && |o.refs| >= DefaultEdges(o) && (|o.refs| - DefaultEdges(o)) % 2 == 0
  }

  /** The edges of a hash that belong to its pairs. */
  function PairEdges(o: Obj): (n: nat)
    ensures n <= |o.refs|
  {
    if |o.refs| < DefaultEdges(o) then 0 else |o.refs| - DefaultEdges(o)
  }

  /** Whether edge `j` of `o` is the key of a hash pair. */
  predicate IsKeyEdge(o: Obj, j: nat) {
    o.kind == HashKind && j % 2 == 0 && j < PairEdges(o)
  }

  function EdgeTotal(objs: seq<Obj>): nat {
    if objs == [] then 0 else |objs[0].refs| + EdgeTotal(objs[1..])
  }
}
