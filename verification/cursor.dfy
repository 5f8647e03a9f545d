/**
  The bookmark cursor: a forward-only walk along the level-0 chain.

  `bookmark` is the node the walk stands on (the head sentinel before the
  first step, null once the chain is exhausted) and `bookmarkPrev` the node
  it stood on before its last step. Every operation is a pure transition on
  the list value; the chain itself is never changed.
 */
module Cursor {
  import opened Layout

  /** The result of one advance: the new list state and the pointer returned. */
  datatype Step<K, V> = Step(list: SkipList<K, V>, node: Pos)

  /** The result of an advance projected to the yielded node's key and value. */
  datatype KeyValue<K, V> = KeyValue(list: SkipList<K, V>, key: Option<K>, value: Option<V>)

  /** The result of several advances: the final state and every pointer returned. */
  datatype Steps<K, V> = Steps(list: SkipList<K, V>, nodes: seq<Pos>)

  /**
    The bookmark adjacency invariant: unless the cursor has just been reset,
    `bookmarkPrev` is a non-null node whose level-0 successor is `bookmark`.
   */
  ghost predicate PrevPrecedesBookmark<K, V>(s: SkipList<K, V>)
  {
    s.bookmark == Head
    || (ValidPos(|s.chain|, s.bookmarkPrev) && s.bookmarkPrev != Null
        && Succ(|s.chain|, s.bookmarkPrev) == s.bookmark)
  }

  /**
    Moves the cursor before the first element. Nothing else changes, and the
    next advance yields the first node of the chain, or null when it is empty.
   */
  function ResetBookmark<K, V>(s: SkipList<K, V>): (t: SkipList<K, V>)
    ensures Valid(t) && Rank(|t.chain|, t.bookmark) == 0
    ensures t.chain == s.chain && t.bookmarkPrev == s.bookmarkPrev && t.size == s.size
    ensures PrevPrecedesBookmark(t)
    ensures GetNext(t).node == (if 0 < |s.chain| then At(0) else Null)
  {
    s.(bookmark := Head)
  }

  /**
    Advances the cursor one node along the level-0 chain and returns the new
    bookmark. A null bookmark stays null and changes nothing.
   */
  function GetNext<K, V>(s: SkipList<K, V>): (r: Step<K, V>)
    requires Valid(s)
    ensures Valid(r.list) && r.node == r.list.bookmark && r.node != Head
    ensures r.list.chain == s.chain && r.list.size == s.size
    ensures s.bookmark == Null ==> r.list == s && r.node == Null
    ensures s.bookmark != Null ==>
              && r.list.bookmarkPrev == s.bookmark
              && Rank(|s.chain|, r.node) == Rank(|s.chain|, s.bookmark) + 1
    ensures s.bookmark != Null ==> PrevPrecedesBookmark(r.list)
    ensures PrevPrecedesBookmark(s) ==> PrevPrecedesBookmark(r.list)
  {
    if s.bookmark == Null then
      Step(s, Null)
    else
      var next := Succ(|s.chain|, s.bookmark);
      Step(s.(bookmarkPrev := s.bookmark, bookmark := next), next)
  }

  /**
    Advances the cursor and reports the yielded node's key and value, or no
    key and no value once the chain is exhausted.
   */
  function GetNextKeyValue<K, V>(s: SkipList<K, V>): (r: KeyValue<K, V>)
    requires Valid(s)
    ensures r.list == GetNext(s).list
    ensures r.key.Some? <==> r.list.bookmark != Null
    ensures r.value.Some? <==> r.list.bookmark != Null
    ensures r.list.bookmark.At? ==>
              && r.key == Some(s.chain[r.list.bookmark.i].key)
              && r.value == Some(s.chain[r.list.bookmark.i].value)
  {
    var step := GetNext(s);
    match step.node
    case At(i) => KeyValue(step.list, Some(s.chain[i].key), Some(s.chain[i].value))
    case _ => KeyValue(step.list, None, None)
  }

  /** `k` successive advances, collecting the pointer each one returns. */
  function Run<K, V>(s: SkipList<K, V>, k: nat): (r: Steps<K, V>)
    requires Valid(s)
    ensures Valid(r.list) && |r.nodes| == k
    ensures r.list.chain == s.chain && r.list.size == s.size
    decreases k
  {
    if k == 0 then
      Steps(s, [])
    else
      var step := GetNext(s);
      var rest := Run(step.list, k - 1);
      Steps(rest.list, [step.node] + rest.nodes)
  }

  function Min(a: nat, b: nat): nat
  {
    if a <= b then a else b
  }

  /**
    From any valid cursor position, the j-th advance returns the pointer j+1
    places further in chain order, stopping at null; after k advances the
    bookmark has moved k places, clamped at null. After at least one advance
    from a non-null bookmark, or from any state keeping the adjacency
    invariant, `bookmarkPrev` trails the bookmark by one place, clamped at the
    last node (the head for an empty chain).
   */
  lemma {:induction false} RunFromPosition<K, V>(s: SkipList<K, V>, k: nat)
    requires Valid(s)
    ensures var n, m := |s.chain|, Rank(|s.chain|, s.bookmark);
            && Rank(n, Run(s, k).list.bookmark) == Min(m + k, n + 1)
            && (forall j :: 0 <= j < k ==>
                  Run(s, k).nodes[j] == PosOfRank(n, Min(m + j + 1, n + 1)))
            && ((s.bookmark != Null || PrevPrecedesBookmark(s)) && 0 < k ==>
                  && ValidPos(n, Run(s, k).list.bookmarkPrev)
                  && Rank(n, Run(s, k).list.bookmarkPrev) == Min(m + k - 1, n))
    decreases k
  {
    var n, m := |s.chain|, Rank(|s.chain|, s.bookmark);
    if k > 0 {
      var step := GetNext(s);
      RunFromPosition(step.list, k - 1);
      RankRoundTrip(n, step.node, 0);
      var rest := Run(step.list, k - 1);
      assert Run(s, k).nodes == [step.node] + rest.nodes;
      if s.bookmark == Null {
        assert m == n + 1;
        RunNullIsAbsorbing(s, k);
      } else {
        var m' := Rank(n, step.list.bookmark);
        assert m' == m + 1;
        forall j | 0 <= j < k
          ensures Run(s, k).nodes[j] == PosOfRank(n, Min(m + j + 1, n + 1))
        {
          if j > 0 {
            assert Run(s, k).nodes[j] == rest.nodes[j - 1];
          }
        }
        if k > 1 && step.list.bookmark == Null {
          RunNullIsAbsorbing(step.list, k - 1);
        }
      }
    }
  }

  /**
    Once the bookmark is null every further advance returns null and leaves
    the whole list state as it was.
   */
  lemma {:induction false} RunNullIsAbsorbing<K, V>(s: SkipList<K, V>, k: nat)
    requires Valid(s) && s.bookmark == Null
    ensures Run(s, k).list == s
    ensures forall j :: 0 <= j < k ==> Run(s, k).nodes[j] == Null
    decreases k
  {
    if k > 0 {
      RunNullIsAbsorbing(s, k - 1);
      assert Run(s, k).nodes == [Null] + Run(s, k - 1).nodes;
    }
  }

  /**
    From a reset on a chain of n nodes, advances 1..n return nodes 1..n in
    chain order and every later advance returns null; the node before the
    bookmark trails it by exactly one place.
   */
  lemma RunFromReset<K, V>(s: SkipList<K, V>, k: nat)
    ensures var t, n := ResetBookmark(s), |s.chain|;
            && (forall j :: 0 <= j < k ==>
                  Run(t, k).nodes[j] == (if j < n then At(j) else Null))
            && (k <= n ==> Run(t, k).list.bookmark == PosOfRank(n, k))
            && (n < k ==> Run(t, k).list.bookmark == Null)
            && (0 < k ==> Run(t, k).list.bookmarkPrev == PosOfRank(n, Min(k - 1, n)))
  {
    var t, n := ResetBookmark(s), |s.chain|;
    RunFromPosition(t, k);
    var r := Run(t, k);
    RankRoundTrip(n, r.list.bookmark, Min(k, n + 1));
    if 0 < k {
      RankRoundTrip(n, r.list.bookmarkPrev, 0);
    }
  }

  /**
    Drains the cursor: advances until null, collecting the key and value of
    every node yielded along the way.
   */
  function Traverse<K, V>(s: SkipList<K, V>): (entries: seq<Node<K, V>>)
    requires Valid(s)
    decreases |s.chain| + 1 - Rank(|s.chain|, s.bookmark)
  {
    var r := GetNextKeyValue(s);
    if r.key.None? then [] else [Node(r.key.value, r.value.value)] + Traverse(r.list)
  }

  /**
    A drain yields exactly the nodes after the bookmark, in chain order: the
    whole chain from the head, nothing from null.
   */
  lemma {:induction false} TraverseYieldsRest<K, V>(s: SkipList<K, V>)
    requires Valid(s)
    ensures s.bookmark == Null ==> Traverse(s) == []
    ensures s.bookmark != Null ==> Traverse(s) == s.chain[Rank(|s.chain|, s.bookmark)..]
    decreases |s.chain| + 1 - Rank(|s.chain|, s.bookmark)
  {
    var n := |s.chain|;
    var r := GetNextKeyValue(s);
    if r.key.Some? {
      var i := r.list.bookmark.i;
      RankRoundTrip(n, s.bookmark, 0);
      assert Rank(n, s.bookmark) == i;
      TraverseYieldsRest(r.list);
      assert s.chain[i..] == [s.chain[i]] + s.chain[i + 1..];
    }
  }

  /** A full traversal from a reset yields the chain's entries in chain order. */
  lemma FullTraversal<K, V>(s: SkipList<K, V>)
    ensures Traverse(ResetBookmark(s)) == s.chain
  {
    TraverseYieldsRest(ResetBookmark(s));
  }

  /**
    When the chain keeps its keys strictly ascending, a full traversal yields
    strictly ascending keys, and only then.
   */
  lemma TraversalAscending<K, V>(s: SkipList<K, V>, cmp: (K, K) -> Comparison)
    ensures StrictlyAscending(cmp, Keys(Traverse(ResetBookmark(s))))
            <==> StrictlyAscending(cmp, Keys(s.chain))
  {
    FullTraversal(s);
  }
}
