/**
  List destruction: reset the cursor, then walk the level-0 chain, reading
  each node's successor before handing the node to the node destructor, and
  finally free the list. The destructor and `free` are opaque, so the walk is
  modelled by the trace of calls it makes.
 */
module Destroy {
  import opened Layout
  import opened Cursor

  /** One observable call made during destruction. */
  datatype Event =
    | Next(node: Pos)           // an advance of the cursor and the pointer it returned
    | NodeDestroy(node: Pos)    // the node destructor called on `node`
    | FreeList                  // the list structure itself released

  /**
    The calls made on a chain of `n` nodes by the first advance and the first
    `k` iterations of the walk: iteration i reads the successor of node i,
    then destroys node i.
   */
  function DestroyPrefix(n: nat, k: nat): (t: seq<Event>)
    requires k <= n
    ensures |t| == 2 * k + 1
    decreases k
  {
    if k == 0 then
      [Next(PosOfRank(n, 1))]
    else
      DestroyPrefix(n, k - 1) + [Next(PosOfRank(n, k + 1)), NodeDestroy(At(k - 1))]
  }

  /** The calls a complete destruction makes: none at all for a null list. */
  function DestroyTrace<K, V>(list: Option<SkipList<K, V>>): seq<Event>
  {
    match list
    case None => []
    case Some(s) => DestroyPrefix(|s.chain|, |s.chain|) + [FreeList]
  }

  /** The nodes handed to the node destructor, in call order. */
  function Destroyed(t: seq<Event>): (ps: seq<Pos>)
    ensures |ps| <= |t|
  {
    if |t| == 0 then []
    else if t[0].NodeDestroy? then [t[0].node] + Destroyed(t[1..])
    else Destroyed(t[1..])
  }

  /** The pointers returned by the cursor advances, in call order. */
  function Advances(t: seq<Event>): (ps: seq<Pos>)
    ensures |ps| <= |t|
  {
    if |t| == 0 then []
    else if t[0].Next? then [t[0].node] + Advances(t[1..])
    else Advances(t[1..])
  }

  /** The chain's nodes 0..n-1, in chain order. */
  function ChainNodes(n: nat): (ps: seq<Pos>)
    ensures |ps| == n
    ensures forall i :: 0 <= i < n ==> ps[i] == At(i)
  {
    if n == 0 then [] else ChainNodes(n - 1) + [At(n - 1)]
  }

  /**
    Every node destroyed is a chain node whose successor was read by the
    call immediately before its destruction.
   */
  ghost predicate ReadsAhead(n: nat, t: seq<Event>)
  {
    forall j :: 0 <= j < |t| && t[j].NodeDestroy? ==>
      && 0 < j
      && t[j].node.At? && t[j].node.i < n
      && t[j - 1] == Next(Succ(n, t[j].node))
  }

  lemma {:induction false} DestroyedAppend(a: seq<Event>, b: seq<Event>)
    ensures Destroyed(a + b) == Destroyed(a) + Destroyed(b)
    decreases |a|
  {
    if |a| > 0 {
      assert (a + b)[1..] == a[1..] + b;
      DestroyedAppend(a[1..], b);
    } else {
      assert a + b == b;
    }
  }

  lemma {:induction false} AdvancesAppend(a: seq<Event>, b: seq<Event>)
    ensures Advances(a + b) == Advances(a) + Advances(b)
    decreases |a|
  {
    if |a| > 0 {
      assert (a + b)[1..] == a[1..] + b;
      AdvancesAppend(a[1..], b);
    } else {
      assert a + b == b;
    }
  }

  /** The walk destroys the first k chain nodes, each once, in chain order. */
  lemma {:induction false} DestroyPrefixDestroysInOrder(n: nat, k: nat)
    requires k <= n
    ensures Destroyed(DestroyPrefix(n, k)) == ChainNodes(k)
    decreases k
  {
    var e := Next(PosOfRank(n, 1));
    assert Destroyed([e]) == Destroyed([e][1..]);
    if k > 0 {
      var tail := [Next(PosOfRank(n, k + 1)), NodeDestroy(At(k - 1))];
      DestroyPrefixDestroysInOrder(n, k - 1);
      DestroyedAppend(DestroyPrefix(n, k - 1), tail);
      assert tail[1..][1..] == [];
      assert Destroyed(tail) == [At(k - 1)];
    }
  }

  /** The first k iterations read each successor before destroying its node. */
  lemma {:induction false} DestroyPrefixReadsAhead(n: nat, k: nat)
    requires k <= n
    ensures ReadsAhead(n, DestroyPrefix(n, k))
    decreases k
  {
    if k > 0 {
      DestroyPrefixReadsAhead(n, k - 1);
      var t := DestroyPrefix(n, k);
      var p := DestroyPrefix(n, k - 1);
      assert |t| == |p| + 2;
      forall j | 0 <= j < |t| && t[j].NodeDestroy?
        ensures 0 < j && t[j].node.At? && t[j].node.i < n
        ensures t[j - 1] == Next(Succ(n, t[j].node))
      {
        if j < |p| {
          assert t[j] == p[j];
          assert t[j - 1] == p[j - 1];
        } else {
          assert j == |p| + 1;
          RankRoundTrip(n, Succ(n, At(k - 1)), k + 1);
        }
      }
    }
  }

  /** The first advance and k iterations return the pointers one to k+1 places past the head. */
  lemma {:induction false} DestroyPrefixAdvances(n: nat, k: nat)
    requires k <= n
    ensures |Advances(DestroyPrefix(n, k))| == k + 1
    ensures forall j :: 0 <= j <= k ==> Advances(DestroyPrefix(n, k))[j] == PosOfRank(n, j + 1)
    decreases k
  {
    var e := Next(PosOfRank(n, 1));
    assert Advances([e]) == [e.node] + Advances([e][1..]);
    if k > 0 {
      var tail := [Next(PosOfRank(n, k + 1)), NodeDestroy(At(k - 1))];
      DestroyPrefixAdvances(n, k - 1);
      AdvancesAppend(DestroyPrefix(n, k - 1), tail);
      assert tail[1..][1..] == [];
      assert Advances(tail) == [PosOfRank(n, k + 1)];
    }
  }

  /**
    Destruction drives the cursor exactly as n+1 advances from a reset do:
    it returns every chain node in order and stops at the first null.
   */
  lemma DestroyDrivesCursor<K, V>(s: SkipList<K, V>)
    ensures Advances(DestroyTrace(Some(s))) == Run(ResetBookmark(s), |s.chain| + 1).nodes
  {
    var n := |s.chain|;
    var p := DestroyPrefix(n, n);
    DestroyPrefixAdvances(n, n);
    AdvancesAppend(p, [FreeList]);
    assert Advances([FreeList]) == Advances([FreeList][1..]);
    RunFromReset(s, n + 1);
    var a, r := Advances(DestroyTrace(Some(s))), Run(ResetBookmark(s), n + 1).nodes;
    forall j | 0 <= j < n + 1
      ensures a[j] == r[j]
    {
    }
  }

  /**
    Destroying a list passes every chain node to the node destructor exactly
    once, in chain order, never the head sentinel and never null; each
    node's successor is read before the node is destroyed, and the list is
    freed last. Destroying a null list does nothing.
   */
  lemma DestroyTraceProperties<K, V>(list: Option<SkipList<K, V>>)
    ensures list.None? ==> DestroyTrace(list) == []
    ensures list.Some? ==>
              && Destroyed(DestroyTrace(list)) == ChainNodes(|list.value.chain|)
              && ReadsAhead(|list.value.chain|, DestroyTrace(list))
              && DestroyTrace(list)[|DestroyTrace(list)| - 1] == FreeList
  {
    if list.Some? {
      var n := |list.value.chain|;
      var p := DestroyPrefix(n, n);
      DestroyPrefixDestroysInOrder(n, n);
      DestroyPrefixReadsAhead(n, n);
      DestroyedAppend(p, [FreeList]);
      assert Destroyed([FreeList]) == Destroyed([FreeList][1..]);
      var t := DestroyTrace(list);
      forall j | 0 <= j < |t| && t[j].NodeDestroy?
        ensures 0 < j && t[j].node.At? && t[j].node.i < n
        ensures t[j - 1] == Next(Succ(n, t[j].node))
      {
        assert t[j] == p[j];
        assert t[j - 1] == p[j - 1];
      }
    }
  }

  /**
    The destruction walk as the list code performs it: reset the bookmark,
    advance once, then repeatedly advance past the current node before
    destroying it, until an advance returns null; then free the list.
   */
  method DestroyList<K, V>(list: Option<SkipList<K, V>>) returns (trace: seq<Event>)
    ensures trace == DestroyTrace(list)
    ensures list.None? ==> trace == []
    ensures list.Some? ==>
              && Destroyed(trace) == ChainNodes(|list.value.chain|)
              && ReadsAhead(|list.value.chain|, trace)
  {
    if list.None? {
      return [];
    }
    var n := |list.value.chain|;
    var s := ResetBookmark(list.value);
    var step := GetNext(s);
    var node := step.node;
    s := step.list;
    trace := [Next(node)];
    while node != Null
      invariant Valid(s) && s.chain == list.value.chain
      invariant s.bookmark == node && node != Head
      invariant trace == DestroyPrefix(n, Rank(n, node) - 1)
      decreases n + 1 - Rank(n, node)
    {
      var ahead := GetNext(s);
      RankRoundTrip(n, ahead.node, Rank(n, node) + 1);
      trace := trace + [Next(ahead.node), NodeDestroy(node)];
      node := ahead.node;
      s := ahead.list;
    }
    trace := trace + [FreeList];
    DestroyTraceProperties(list);
  }
}
