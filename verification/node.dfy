/**
 * A node of the skip list: the stored pair, its height, one forward link
 * per level it takes part in, and one backward link. Links are ids into the
 * arena that holds the nodes (see module Layout); id 0 plays `nullptr`.
 */
module Nodes {

  datatype Node<V> = Node(key: int, value: V, height: nat, forwards: seq<nat>, backward: nat)

  /** `Node(value, height)`: every link starts out as the null id. */
  function NewNode<V>(key: int, value: V, height: nat, nil: nat): (n: Node<V>)
    ensures n.key == key && n.value == value && n.height == height
    ensures |n.forwards| == height
    ensures forall i :: 0 <= i < |n.forwards| ==> n.forwards[i] == nil
    ensures n.backward == nil
  {
    Node(key, value, height, seq(height, _ => nil), nil)
  }

  /** `forward(i)`: only a link the node has may be read. */
  function Forward<V>(n: Node<V>, i: nat): (p: nat)
    requires i < |n.forwards|
  {
    n.forwards[i]
  }

  /** `set_forward(i, p)`: only a link the node has may be written. */
  function SetForward<V>(n: Node<V>, i: nat, p: nat): (n': Node<V>)
    requires i < |n.forwards|
    ensures |n'.forwards| == |n.forwards|
    ensures Forward(n', i) == p
    ensures forall j :: 0 <= j < |n.forwards| && j != i ==> n'.forwards[j] == n.forwards[j]
    ensures n'.key == n.key && n'.value == n.value && n'.height == n.height && n'.backward == n.backward
  {
    n.(forwards := n.forwards[i := p])
  }

  /** `set_backward(p)`. */
  function SetBackward<V>(n: Node<V>, p: nat): (n': Node<V>)
    ensures n'.backward == p
    ensures n'.key == n.key && n'.value == n.value && n'.height == n.height && n'.forwards == n.forwards
  {
    n.(backward := p)
  }
}
