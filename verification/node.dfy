/**
 The structural unit of the QP-trie: a node is empty, a branch on one nibble
 position of the keys below it, or a leaf owning one key and its value.

 Keys are byte strings. The children of a branch are kept in a compact sparse
 array in `rust-qptrie`; this model takes them as an abstract map from the nibble value
 (0 to 15, plus 16 for "the key has ended") to the child node.
 */
module Nodes {

  type Byte = bv8

  /** A key as the trie sees it: its byte representation. */
  type Key = seq<Byte>

  /** A logical slot of a branch: one of the 16 nibble values or the end-of-key sentinel 16. */
  type Nibble = x: int | 0 <= x <= 16

  /** A branch: the nibble position it splits on and its children by nibble value. */
  datatype InternalNode<V> = InternalNode(index: nat, nibbles: map<Nibble, Node<V>>)

  /** A stored entry. */
  datatype LeafNode<V> = LeafNode(key: Key, val: V)

  datatype Node<V> =
    | Empty
    | Internal(internal: InternalNode<V>)
    | Leaf(leaf: LeafNode<V>)

  /** The node a fresh slot holds before anything is stored in it. */
  function Default<V>(): (n: Node<V>)
    ensures IsEmpty(n)
    ensures !IsInternal(n) && !IsLeaf(n)
  {
    Empty
  }

  function IsInternal<V>(n: Node<V>): (b: bool)
    ensures b <==> n.Internal?
  {
    match n
    case Internal(_) => true
    case _ => false
  }

  function IsLeaf<V>(n: Node<V>): (b: bool)
    ensures b <==> n.Leaf?
  {
    match n
    case Leaf(_) => true
    case _ => false
  }

  function IsEmpty<V>(n: Node<V>): (b: bool)
    ensures b <==> n.Empty?
  {
    match n
    case Empty => true
    case _ => false
  }

  /** Every node answers yes to exactly one of the three variant tests. */
  lemma VariantsExclusive<V>(n: Node<V>)
    ensures IsInternal(n) || IsLeaf(n) || IsEmpty(n)
    ensures !(IsInternal(n) && IsLeaf(n))
    ensures !(IsInternal(n) && IsEmpty(n))
    ensures !(IsLeaf(n) && IsEmpty(n))
  {
  }

  /**
   The branch a node wraps. Calling it on any other variant is a contract
   violation in `rust-qptrie` (unreachable), so it is a precondition.
   */
  function AsInternal<V>(n: Node<V>): (r: InternalNode<V>)
    requires IsInternal(n)
    ensures Internal(r) == n
  {
    match n
    case Internal(internal) => internal
  }

  /** The entry a node wraps; only callable once the node is known to be a leaf. */
  function AsLeaf<V>(n: Node<V>): (r: LeafNode<V>)
    requires IsLeaf(n)
    ensures Leaf(r) == n
  {
    match n
    case Leaf(leaf) => leaf
  }

  /**
   The node after a write through the mutable branch accessor: the payload is
   replaced and the node stays a branch.
   */
  function SetInternal<V>(n: Node<V>, payload: InternalNode<V>): (r: Node<V>)
    requires IsInternal(n)
    ensures IsInternal(r)
    ensures AsInternal(r) == payload
  {
    match n
    case Internal(_) => Internal(payload)
  }

  /** The node after a write through the mutable leaf accessor. */
  function SetLeaf<V>(n: Node<V>, payload: LeafNode<V>): (r: Node<V>)
    requires IsLeaf(n)
    ensures IsLeaf(r)
    ensures AsLeaf(r) == payload
  {
    match n
    case Leaf(_) => Leaf(payload)
  }

  /**
   The mutable branch accessor behaves as a lens on the node: writing back what
   was read changes nothing, and of two writes only the last is visible.
   */
  lemma SetInternalLaws<V>(n: Node<V>, p: InternalNode<V>, q: InternalNode<V>)
    requires IsInternal(n)
    ensures SetInternal(n, AsInternal(n)) == n
    ensures SetInternal(SetInternal(n, p), q) == SetInternal(n, q)
  {
  }

  /** The same lens laws for the mutable leaf accessor. */
  lemma SetLeafLaws<V>(n: Node<V>, p: LeafNode<V>, q: LeafNode<V>)
    requires IsLeaf(n)
    ensures SetLeaf(n, AsLeaf(n)) == n
    ensures SetLeaf(SetLeaf(n, p), q) == SetLeaf(n, q)
  {
  }
}
