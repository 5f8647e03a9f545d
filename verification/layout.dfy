/**
  The layout of a skip list as the cursor sees it.

  Only the level-0 chain is ever followed, so the list is a head sentinel
  followed by a finite chain of key/value nodes, each linked to the next
  through its direct-neighbour pointer, the last one to null. The chain is a
  sequence; a node pointer held by the cursor is a `Pos`: the head sentinel,
  the chain node at an index, or null.
 */
module Layout {

  datatype Option<T> = None | Some(value: T)

  /** The three outcomes of comparing two keys. */
  datatype Comparison = LessThan | Equals | GreaterThan

  /** A chain node's payload; its link is implied by its place in the chain. */
  datatype Node<K, V> = Node(key: K, value: V)

  /** A node pointer: the head sentinel, the chain node at index `i`, or null. */
  datatype Pos = Head | At(i: nat) | Null

  /**
    The list structure: the level-0 chain behind the head sentinel, the
    cursor (`bookmark`, and `bookmarkPrev`, the node just before it) and the
    size counter, which no implemented operation reads or writes.
   */
  datatype SkipList<K, V> = SkipList(chain: seq<Node<K, V>>, bookmark: Pos, bookmarkPrev: Pos, size: int)

  /** `p` points at the head, at a node of a chain of `n` nodes, or is null. */
  predicate ValidPos(n: nat, p: Pos)
  {
    !p.At? || p.i < n
  }

  /** The bookmark is a pointer the cursor may follow or test for null. */
  predicate Valid<K, V>(s: SkipList<K, V>)
  {
    ValidPos(|s.chain|, s.bookmark)
  }

  /**
    The place of a pointer in chain order: the head comes first, then the
    chain nodes in order, and null after all of them.
   */
  function Rank(n: nat, p: Pos): nat
  {
    match p
    case Head => 0
    case At(i) => i + 1
    case Null => n + 1
  }

  /** The pointer at a given place in chain order. */
  function PosOfRank(n: nat, r: nat): (p: Pos)
    requires r <= n + 1
    ensures ValidPos(n, p)
    ensures p == Head <==> r == 0
    ensures p == Null <==> r == n + 1
  {
    if r == 0 then Head else if r <= n then At(r - 1) else Null
  }

  /** Rank and PosOfRank are inverse on the valid pointers of a chain. */
  lemma RankRoundTrip(n: nat, p: Pos, r: nat)
    ensures ValidPos(n, p) ==> Rank(n, p) <= n + 1 && PosOfRank(n, Rank(n, p)) == p
    ensures r <= n + 1 ==> Rank(n, PosOfRank(n, r)) == r
  {
  }

  /**
    The level-0 successor of a non-null pointer (its direct-neighbour link):
    never the head, and exactly one place further in chain order.
   */
  function Succ(n: nat, p: Pos): (q: Pos)
    requires ValidPos(n, p) && p != Null
    ensures ValidPos(n, q) && q != Head
    ensures Rank(n, q) == Rank(n, p) + 1
  {
    match p
    case Head => if 0 < n then At(0) else Null
    case At(i) => if i + 1 < n then At(i + 1) else Null
  }

  /** The keys of a sequence of nodes, in order. */
  function Keys<K, V>(nodes: seq<Node<K, V>>): (ks: seq<K>)
    ensures |ks| == |nodes|
    ensures forall i :: 0 <= i < |nodes| ==> ks[i] == nodes[i].key
  {
    if |nodes| == 0 then [] else [nodes[0].key] + Keys(nodes[1..])
  }

  /** Keys strictly ascending under a comparator, as the chain is documented to be. */
  ghost predicate StrictlyAscending<K>(cmp: (K, K) -> Comparison, ks: seq<K>)
  {
    forall i, j :: 0 <= i < j < |ks| ==> cmp(ks[i], ks[j]) == LessThan
  }
}
