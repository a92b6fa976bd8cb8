/** src/ds/hmap.c: a hash map of chained nodes, each one allocation that never moves. */
module HashMaps {
  import opened Core
  import opened Arith
  import opened Ring
  import opened Bitwise

  const BUCKETS_BASE: nat := 8
  const GROWTH_FACTOR: nat := 2
  const FIB_MULTIPLIER: nat := 0x9e37_79b9_7f4a_7c15

  // ----- buckets

  predicate IsCount(count: nat) {
    exists k: nat :: 0 < k < 64 && count == Pow2(k)
  }

  /** The bucket's bits are the top bits of the product. */
  lemma BucketBits(hash: nat, k: nat, i: nat)
    requires 0 < k < 64 && i < k
    ensures IsCount(Pow2(k)) && Bit(BucketIn(hash, Pow2(k)), i) == Bit((hash * FIB_MULTIPLIER) % Pow2(64), 64 - k + i)
  {
    hide Pow2, LowBit, Bit;
    LowBitOf(k, 1);
    ShiftedBit((hash * FIB_MULTIPLIER) % Pow2(64), 64 - k, i);
  }

  lemma CountAtMost(count: nat)
    requires IsCount(count)
    ensures count <= Pow2(63)
  {
    hide Pow2;
    var k: nat :| 0 < k < 64 && count == Pow2(k);
    Pow2Monotone(k, 63);
  }

  /** bucket_in: the top bits of the hash times an odd constant, in 64-bit arithmetic. */
  function BucketIn(hash: nat, count: nat): (b: nat)
    requires IsCount(count)
    ensures b < count
  {
    InRange(hash, count);
    ((hash * FIB_MULTIPLIER) % Pow2(64)) / Pow2(64 - LowBit(count))
  }

  lemma InRange(hash: nat, count: nat)
    requires IsCount(count)
    ensures count > 0 && LowBit(count) <= 64
    ensures 0 <= ((hash * FIB_MULTIPLIER) % Pow2(64)) / Pow2(64 - LowBit(count)) < count
  {
    hide Pow2, LowBit;
    var k: nat :| 0 < k < 64 && count == Pow2(k);
    LowBitOf(k, 1);
    Pow2Divides(64 - k, 64);
    QuotientBelow((hash * FIB_MULTIPLIER) % Pow2(64), count, Pow2(64 - k));
  }

  lemma QuotientBelow(x: nat, n: nat, p: nat)
    requires p > 0 && x < n * p
    ensures 0 <= x / p < n
  {
    QuotientIsNat(x, p);
    assert x == (x / p) * p + x % p;
    MulMonotone(n, x / p, p);
  }

  /** buckets_for: the least power of two at least `len` and the base, or 0 when it does not fit. */
  method BucketsFor(len: nat) returns (count: nat)
    ensures count != 0 ==> IsCount(count) && BUCKETS_BASE <= count <= SIZE_MAX && len <= count
    ensures count != 0 ==> count == BUCKETS_BASE || count / 2 < len
    ensures count == 0 <==> len > Pow2(63)
  {
    hide Pow2;
    count := BUCKETS_BASE;
    ghost var k: nat := 3;
    PowersHere();
    while count < len
      invariant 3 <= k < 64 && BUCKETS_BASE <= count == Pow2(k) && (count == BUCKETS_BASE || count / 2 < len)
      decreases 64 - k
    {
      Doubles(k);
      if k == 63 {
        assert GROWTH_FACTOR * count > SIZE_MAX;
      } else {
        Pow2Monotone(k + 1, 63);
      }
      if GROWTH_FACTOR * count > SIZE_MAX {
        return 0;
      }
      count, k := GROWTH_FACTOR * count, k + 1;
    }
    Pow2Monotone(k, 63);
  }

  lemma PowersHere()
    ensures Pow2(3) == 8 && Pow2(63) == 0x8000_0000_0000_0000
  {
    assert Pow2(3) == 8;
    assert Pow2(8) == 256;
    Pow2Divides(8, 16);
    Pow2Divides(16, 32);
    Pow2Divides(32, 63);
    Pow2Divides(16, 31);
    Pow2Divides(8, 15);
    assert Pow2(7) == 128;
  }

  // ----- nodes in chains

  class Node<K, V> {
    var next: Node?<K, V>
    const hash: nat
    const key: K
    var val: V

    constructor (key: K, val: V, hash: nat)
      ensures this.key == key && this.val == val && this.hash == hash && next == null
    {
      this.key, this.val, this.hash, next := key, val, hash, null;
    }
  }

  function At<K, V>(c: seq<Node<K, V>>, k: int): Node?<K, V> {
    if 0 <= k < |c| then c[k] else null
  }

  /** The buckets and the `next` links spell out the chains. */
  ghost predicate Threaded<K, V>(heads: seq<Node?<K, V>>, chains: seq<seq<Node<K, V>>>, nodes: set<Node<K, V>>)
    reads nodes`next
  {
    && |heads| == |chains|
    && (forall i :: 0 <= i < |chains| ==> heads[i] == At(chains[i], 0))
    && (forall i, k :: 0 <= i < |chains| && 0 <= k < |chains[i]| ==>
          chains[i][k] in nodes && chains[i][k].next == At(chains[i], k + 1))
  }

  /** Every node is once in the chain of the bucket its cached hash picks, and nowhere else. */
  ghost predicate Bucketed<K, V>(chains: seq<seq<Node<K, V>>>, nodes: set<Node<K, V>>) {
    && (nodes != {} ==> |chains| > 0)
    && (|chains| > 0 ==> IsCount(|chains|))
    && (forall i :: 0 <= i < |chains| ==> Distinct(chains[i]))
    && (forall i, k :: 0 <= i < |chains| && 0 <= k < |chains[i]| ==>
          chains[i][k] in nodes && BucketIn(chains[i][k].hash, |chains|) == i)
    && (forall n :: n in nodes ==> n in chains[BucketIn(n.hash, |chains|)])
  }

  // ----- the keys

  /** What the map asks of its functions: eq is an equivalence, and equal keys hash alike. */
  ghost predicate Lawful<K(!new)>(eq: (K, K) -> bool, hash: K -> nat) {
    && (forall x :: eq(x, x))
    && (forall x, y :: eq(x, y) ==> eq(y, x) && hash(x) == hash(y))
    && (forall x, y, z :: eq(x, y) && eq(y, z) ==> eq(x, z))
  }

  /** No two nodes hold equal keys, and each has the hash of its key. */
  ghost predicate Keyed<K, V>(nodes: set<Node<K, V>>, eq: (K, K) -> bool, hash: K -> nat) {
    && (forall n :: n in nodes ==> n.hash == hash(n.key))
    && (forall n, m :: n in nodes && m in nodes && eq(n.key, m.key) ==> n == m)
  }

  lemma NoKeys<K, V>(eq: (K, K) -> bool, hash: K -> nat)
    ensures Keyed<K, V>({}, eq, hash)
  {
  }

  /** No node of the chain from position k on holds the key. */
  ghost predicate Missing<K, V>(c: seq<Node<K, V>>, from: nat, to: nat, key: K, eq: (K, K) -> bool)
    requires from <= to <= |c|
  {
    forall k :: from <= k < to ==> !eq(c[k].key, key)
  }

  lemma Reflexive<K(!new)>(eq: (K, K) -> bool, hash: K -> nat, x: K)
    requires Lawful(eq, hash)
    ensures eq(x, x)
  {
  }

  lemma Symmetric<K(!new)>(eq: (K, K) -> bool, hash: K -> nat, x: K, y: K)
    requires Lawful(eq, hash)
    ensures eq(x, y) == eq(y, x)
  {
  }

  lemma Transitive<K(!new)>(eq: (K, K) -> bool, hash: K -> nat, x: K, y: K, z: K)
    requires Lawful(eq, hash)
    ensures eq(x, y) && eq(y, z) ==> eq(x, z)
  {
  }

  lemma EqualHash<K(!new)>(eq: (K, K) -> bool, hash: K -> nat, x: K, y: K)
    requires Lawful(eq, hash)
    ensures eq(x, y) ==> hash(x) == hash(y)
  {
  }

  /** A key not in the chain its hash picks is in no node. */
  lemma MissingEverywhere<K(!new), V>(chains: seq<seq<Node<K, V>>>, nodes: set<Node<K, V>>, key: K, eq: (K, K) -> bool,
                                      hash: K -> nat)
    requires Bucketed(chains, nodes) && Keyed(nodes, eq, hash) && Lawful(eq, hash) && |chains| > 0
    requires var c := chains[BucketIn(hash(key), |chains|)]; Missing(c, 0, |c|, key, eq)
    ensures forall n :: n in nodes ==> !eq(n.key, key)
  {
    forall n | n in nodes ensures !eq(n.key, key) {
      assert n in chains[BucketIn(n.hash, |chains|)];
      EqualHash(eq, hash, n.key, key);
    }
  }

  // ----- linking

  function Pushed<K, V>(chains: seq<seq<Node<K, V>>>, node: Node<K, V>): seq<seq<Node<K, V>>>
    requires IsCount(|chains|)
  {
    var b := BucketIn(node.hash, |chains|);
    chains[b := [node] + chains[b]]
  }

  lemma PushedBucketed<K, V>(chains: seq<seq<Node<K, V>>>, nodes: set<Node<K, V>>, node: Node<K, V>)
    requires Bucketed(chains, nodes) && IsCount(|chains|) && node !in nodes
    ensures Bucketed(Pushed(chains, node), nodes + {node})
  {
    hide BucketIn, IsCount;
    var b, r := BucketIn(node.hash, |chains|), Pushed(chains, node);
    assert node !in chains[b] by {
      forall k | 0 <= k < |chains[b]| ensures chains[b][k] != node {
        assert chains[b][k] in nodes;
      }
    }
    forall i, k | 0 <= i < |r| && 0 <= k < |r[i]|
      ensures r[i][k] in nodes + {node} && BucketIn(r[i][k].hash, |r|) == i
    {
      if i == b && k > 0 {
        assert r[i][k] == chains[b][k - 1];
      }
    }
    forall n | n in nodes + {node} ensures n in r[BucketIn(n.hash, |r|)] {
      if n != node {
        assert n in chains[BucketIn(n.hash, |chains|)];
      } else {
        assert r[b][0] == node;
      }
    }
  }

  /** link_node: the head of its bucket. */
  method LinkNode<K, V>(buckets: array<Node?<K, V>>, node: Node<K, V>, ghost chains: seq<seq<Node<K, V>>>,
                        ghost nodes: set<Node<K, V>>)
    requires IsCount(buckets.Length) && Threaded(buckets[..], chains, nodes) && node !in nodes
    modifies buckets, node`next
    ensures |chains| == buckets.Length && Threaded(buckets[..], Pushed(chains, node), nodes + {node})
  {
    hide BucketIn, IsCount;
    var b := BucketIn(node.hash, buckets.Length);
    node.next := buckets[b];
    buckets[b] := node;
    ghost var r := Pushed(chains, node);
    forall i, k | 0 <= i < |r| && 0 <= k < |r[i]| ensures r[i][k] in nodes + {node} && r[i][k].next == At(r[i], k + 1) {
      if i == b && k > 0 {
        assert r[i][k] == chains[b][k - 1];
      }
    }
  }

  // ----- rehashing

  function Elems<K, V>(c: seq<Node<K, V>>): set<Node<K, V>> {
    set n | n in c
  }

  /** A chain on its own, from position k on. */
  ghost predicate Linked<K, V>(c: seq<Node<K, V>>, from: nat)
    reads c`next
  {
    forall k :: from <= k < |c| ==> c[k].next == At(c, k + 1)
  }

  /** Moves the nodes of one chain, front to back, into new buckets. */
  method RelinkChain<K, V>(head: Node?<K, V>, buckets: array<Node?<K, V>>, ghost c: seq<Node<K, V>>,
                           ghost chains: seq<seq<Node<K, V>>>, ghost nodes: set<Node<K, V>>)
    returns (ghost chains': seq<seq<Node<K, V>>>)
    requires IsCount(buckets.Length) && |chains| == buckets.Length
    requires Threaded(buckets[..], chains, nodes) && Bucketed(chains, nodes)
    requires head == At(c, 0) && Linked(c, 0) && Distinct(c) && forall k :: 0 <= k < |c| ==> c[k] !in nodes
    modifies buckets, c`next
    ensures |chains'| == buckets.Length
    ensures Threaded(buckets[..], chains', nodes + Elems(c)) && Bucketed(chains', nodes + Elems(c))
  {
    hide Threaded, Bucketed, IsCount, BucketIn;
    var node := head;
    ghost var k, moved := 0, nodes;
    chains' := chains;
    while node != null
      invariant k <= |c| && node == At(c, k) && Linked(c, k) && |chains'| == buckets.Length
      invariant moved == nodes + Elems(c[..k])
      invariant Threaded(buckets[..], chains', moved) && Bucketed(chains', moved)
      decreases |c| - k
    {
      var next := node.next;
      NotYet(c, k, nodes);
      PushedBucketed(chains', moved, node);
      LinkNode(buckets, node, chains', moved);
      chains', moved := Pushed(chains', node), moved + {node};
      OneMore(c, k);
      node, k := next, k + 1;
    }
    assert c[..k] == c;
  }

  lemma NotYet<K, V>(c: seq<Node<K, V>>, k: nat, nodes: set<Node<K, V>>)
    requires k < |c| && Distinct(c) && forall j :: 0 <= j < |c| ==> c[j] !in nodes
    ensures c[k] !in nodes + Elems(c[..k]) && forall j :: k < j < |c| ==> c[j] != c[k]
  {
  }

  lemma OneMore<K, V>(c: seq<Node<K, V>>, k: nat)
    requires k < |c|
    ensures Elems(c[..k + 1]) == Elems(c[..k]) + {c[k]}
  {
    assert c[..k + 1] == c[..k] + [c[k]];
  }

  /** The nodes of the first n chains. */
  ghost function Firsts<K, V>(chains: seq<seq<Node<K, V>>>, n: nat): set<Node<K, V>>
    requires n <= |chains|
  {
    if n == 0 then {} else Firsts(chains, n - 1) + Elems(chains[n - 1])
  }

  lemma {:induction false} FirstsAre<K, V>(chains: seq<seq<Node<K, V>>>, nodes: set<Node<K, V>>, n: nat)
    requires n <= |chains| && Bucketed(chains, nodes)
    ensures Firsts(chains, n) <= nodes
    ensures forall x :: x in nodes ==> (x in Firsts(chains, n) <==> BucketIn(x.hash, |chains|) < n)
  {
    hide BucketIn, IsCount;
    if n > 0 {
      FirstsAre(chains, nodes, n - 1);
    }
  }

  /** The chains from i on are as they were. */
  ghost predicate StillLinked<K, V>(heads: seq<Node?<K, V>>, chains: seq<seq<Node<K, V>>>, i: nat,
                                    nodes: set<Node<K, V>>)
    reads nodes`next
  {
    && |heads| == |chains|
    && (forall j :: i <= j < |chains| ==> heads[j] == At(chains[j], 0))
    && (forall j, k :: i <= j < |chains| && 0 <= k < |chains[j]| ==>
          chains[j][k] in nodes && chains[j][k].next == At(chains[j], k + 1))
  }

  lemma ThisChain<K, V>(heads: seq<Node?<K, V>>, chains: seq<seq<Node<K, V>>>, i: nat, nodes: set<Node<K, V>>)
    requires StillLinked(heads, chains, i, nodes) && i < |chains|
    ensures Linked(chains[i], 0) && heads[i] == At(chains[i], 0)
  {
  }

  /** One chain goes over; the later ones do not have its nodes. */
  method RelinkNext<K, V>(head: Node?<K, V>, buckets: array<Node?<K, V>>, ghost heads: seq<Node?<K, V>>,
                          ghost chains: seq<seq<Node<K, V>>>, ghost nodes: set<Node<K, V>>, ghost i: nat,
                          ghost moved: seq<seq<Node<K, V>>>)
    returns (ghost moved': seq<seq<Node<K, V>>>)
    requires i < |chains| && StillLinked(heads, chains, i, nodes) && head == heads[i] && Bucketed(chains, nodes)
    requires IsCount(buckets.Length) && |moved| == buckets.Length
    requires Threaded(buckets[..], moved, Firsts(chains, i)) && Bucketed(moved, Firsts(chains, i))
    modifies buckets, nodes`next
    ensures StillLinked(heads, chains, i + 1, nodes) && |moved'| == buckets.Length
    ensures Threaded(buckets[..], moved', Firsts(chains, i + 1)) && Bucketed(moved', Firsts(chains, i + 1))
  {
    hide Threaded, Bucketed, IsCount, BucketIn, Linked, Elems;
    ChainsApart(chains, nodes, i);
    ThisChain(heads, chains, i, nodes);
    moved' := RelinkChain(head, buckets, chains[i], moved, Firsts(chains, i));
  }

  /** rehash: every node goes over into the new buckets, and stays the node it was. */
  method Relink<K, V>(from: array<Node?<K, V>>, buckets: array<Node?<K, V>>, ghost chains: seq<seq<Node<K, V>>>,
                      ghost nodes: set<Node<K, V>>)
    returns (ghost moved: seq<seq<Node<K, V>>>)
    requires from != buckets && IsCount(buckets.Length) && forall i :: 0 <= i < buckets.Length ==> buckets[i] == null
    requires Threaded(from[..], chains, nodes) && Bucketed(chains, nodes)
    modifies buckets, nodes`next
    ensures |moved| == buckets.Length && Threaded(buckets[..], moved, nodes) && Bucketed(moved, nodes)
  {
    hide Threaded, Bucketed, IsCount, BucketIn, StillLinked;
    ghost var heads := from[..];
    moved := NoChains(buckets.Length);
    EmptyBuckets(buckets[..]);
    RelinkStart(heads, chains, nodes);
    var i := 0;
    while i < from.Length
      invariant i <= from.Length == |chains| && |moved| == buckets.Length && from[..] == heads
      invariant StillLinked(heads, chains, i, nodes)
      invariant Threaded(buckets[..], moved, Firsts(chains, i)) && Bucketed(moved, Firsts(chains, i))
    {
      moved := RelinkNext(from[i], buckets, heads, chains, nodes, i, moved);
      i := i + 1;
    }
    AllFirst(chains, nodes);
  }

  lemma RelinkStart<K, V>(heads: seq<Node?<K, V>>, chains: seq<seq<Node<K, V>>>, nodes: set<Node<K, V>>)
    requires Threaded(heads, chains, nodes)
    ensures |heads| == |chains| && StillLinked(heads, chains, 0, nodes) && Firsts(chains, 0) == {}
  {
  }

  /** The chains of n empty buckets. */
  ghost function NoChains<K, V>(n: nat): seq<seq<Node<K, V>>> {
    seq(n, _ => [])
  }

  lemma EmptyBuckets<K, V>(heads: seq<Node?<K, V>>)
    requires (heads != [] ==> IsCount(|heads|)) && forall i :: 0 <= i < |heads| ==> heads[i] == null
    ensures |NoChains<K, V>(|heads|)| == |heads|
    ensures Threaded(heads, NoChains(|heads|), {}) && Bucketed<K, V>(NoChains(|heads|), {})
  {
    hide IsCount;
  }

  lemma ChainsApart<K, V>(chains: seq<seq<Node<K, V>>>, nodes: set<Node<K, V>>, i: nat)
    requires i < |chains| && Bucketed(chains, nodes)
    ensures Distinct(chains[i]) && forall k :: 0 <= k < |chains[i]| ==> chains[i][k] !in Firsts(chains, i)
    ensures forall k :: 0 <= k < |chains[i]| ==> chains[i][k] in nodes
    ensures forall j, k :: i < j < |chains| && 0 <= k < |chains[j]| ==> chains[j][k] !in chains[i]
  {
    hide IsCount, BucketIn;
    FirstsAre(chains, nodes, i);
  }

  lemma AllFirst<K, V>(chains: seq<seq<Node<K, V>>>, nodes: set<Node<K, V>>)
    requires Bucketed(chains, nodes)
    ensures Firsts(chains, |chains|) == nodes
  {
    hide IsCount, BucketIn, Firsts;
    FirstsAre(chains, nodes, |chains|);
    forall x | x in nodes ensures x in Firsts(chains, |chains|) {
      assert BucketIn(x.hash, |chains|) < |chains|;
    }
  }

  // ----- taking a node out

  function Cut<K, V>(chains: seq<seq<Node<K, V>>>, b: nat, p: nat): seq<seq<Node<K, V>>>
    requires b < |chains| && p < |chains[b]|
  {
    chains[b := chains[b][..p] + chains[b][p + 1..]]
  }

  lemma CutBucketed<K, V>(chains: seq<seq<Node<K, V>>>, nodes: set<Node<K, V>>, b: nat, p: nat)
    requires Bucketed(chains, nodes) && b < |chains| && p < |chains[b]|
    ensures chains[b][p] in nodes && Bucketed(Cut(chains, b, p), nodes - {chains[b][p]})
  {
    hide BucketIn, IsCount;
    var x, c, r := chains[b][p], chains[b], Cut(chains, b, p);
    assert Distinct(c);
    CutPlaces(c, p);
    forall i, k | 0 <= i < |r| && 0 <= k < |r[i]| ensures r[i][k] in nodes - {x} && BucketIn(r[i][k].hash, |r|) == i {
      if i == b {
        assert r[i][k] == c[if k < p then k else k + 1];
      } else {
        assert r[i][k] == chains[i][k] && BucketIn(x.hash, |chains|) == b;
      }
    }
    forall n | n in nodes - {x} ensures n in r[BucketIn(n.hash, |r|)] {
      assert n in chains[BucketIn(n.hash, |chains|)];
    }
  }

  lemma CutPlaces<K, V>(c: seq<Node<K, V>>, p: nat)
    requires p < |c| && Distinct(c)
    ensures var r := c[..p] + c[p + 1..]; Distinct(r) && forall n :: n in c && n != c[p] ==> n in r
  {
    var r := c[..p] + c[p + 1..];
    assert forall k :: 0 <= k < |r| ==> r[k] == c[if k < p then k else k + 1];
    forall n | n in c && n != c[p] ensures n in r {
      var k :| 0 <= k < |c| && c[k] == n;
      assert r[if k < p then k else k - 1] == n;
    }
  }

  /** The links after one of them was led past node p of chain b. */
  ghost predicate LedPast<K, V>(heads: seq<Node?<K, V>>, chains: seq<seq<Node<K, V>>>, nodes: set<Node<K, V>>, b: nat,
                                p: nat)
    requires b < |chains| && p < |chains[b]|
    reads nodes`next
  {
    && |heads| == |chains|
    && (forall i :: 0 <= i < |chains| ==> heads[i] == At(chains[i], if i == b && p == 0 then 1 else 0))
    && (forall i, k :: 0 <= i < |chains| && 0 <= k < |chains[i]| ==>
          && chains[i][k] in nodes
          && chains[i][k].next == At(chains[i], if i == b && k == p - 1 then k + 2 else k + 1))
  }

  lemma PastIsCut<K, V>(heads: seq<Node?<K, V>>, chains: seq<seq<Node<K, V>>>, nodes: set<Node<K, V>>, b: nat, p: nat)
    requires b < |chains| && p < |chains[b]| && LedPast(heads, chains, nodes, b, p) && Bucketed(chains, nodes)
    ensures Threaded(heads, Cut(chains, b, p), nodes - {chains[b][p]})
  {
    hide BucketIn, IsCount;
    var c, r := chains[b], Cut(chains, b, p);
    NowhereElse(chains, nodes, b, p);
    forall i, k | 0 <= i < |r| && 0 <= k < |r[i]|
      ensures r[i][k] in nodes - {c[p]} && r[i][k].next == At(r[i], k + 1)
    {
      if i == b {
        AroundCut(c, p, k);
      }
      assert chains[i][if i == b && k >= p then k + 1 else k] in nodes;
    }
  }

  lemma AroundCut<K, V>(c: seq<Node<K, V>>, p: nat, k: nat)
    requires p < |c| && k < |c| - 1
    ensures var r, q := c[..p] + c[p + 1..], if k < p then k else k + 1;
            r[k] == c[q] && At(r, k + 1) == At(c, if q == p - 1 then q + 2 else q + 1)
  {
  }

  /** remove_at: the link that led to the node leads past it; no `prev` stands for the bucket's own. */
  method RemoveAt<K, V>(buckets: array<Node?<K, V>>, b: nat, prev: Node?<K, V>, node: Node<K, V>,
                        ghost chains: seq<seq<Node<K, V>>>, ghost nodes: set<Node<K, V>>, ghost p: nat)
    requires Threaded(buckets[..], chains, nodes) && b < |chains| && p < |chains[b]|
    requires prev == At(chains[b], p - 1) && node == chains[b][p] && Bucketed(chains, nodes)
    modifies buckets, nodes`next
    ensures Threaded(buckets[..], Cut(chains, b, p), nodes - {node})
  {
    hide Bucketed;
    assert node.next == At(chains[b], p + 1);
    if prev == null {
      buckets[b] := node.next;
    } else {
      NowhereElse(chains, nodes, b, p - 1);
      prev.next := node.next;
    }
    PastIsCut(buckets[..], chains, nodes, b, p);
  }

  lemma NowhereElse<K, V>(chains: seq<seq<Node<K, V>>>, nodes: set<Node<K, V>>, b: nat, p: nat)
    requires Bucketed(chains, nodes) && b < |chains| && p < |chains[b]|
    ensures forall i, k :: 0 <= i < |chains| && 0 <= k < |chains[i]| && !(i == b && k == p) ==>
              chains[i][k] != chains[b][p]
  {
    hide BucketIn, IsCount;
    forall i, k | 0 <= i < |chains| && 0 <= k < |chains[i]| && !(i == b && k == p)
      ensures chains[i][k] != chains[b][p]
    {
      assert BucketIn(chains[i][k].hash, |chains|) == i && BucketIn(chains[b][p].hash, |chains|) == b;
      assert Distinct(chains[b]);
    }
  }

  // ----- the map behind the nodes

  predicate Has<K, V>(nodes: set<Node<K, V>>, eq: (K, K) -> bool, q: K) {
    exists n :: n in nodes && eq(n.key, q)
  }

  /** What the map answers for a key, whichever of its equals it is asked with. */
  ghost function Get<K, V>(entries: map<Node<K, V>, V>, eq: (K, K) -> bool, q: K): Option<V> {
    if Has(entries.Keys, eq, q) then (var n :| n in entries && eq(n.key, q); Some(entries[n])) else None
  }

  ghost predicate OneEach<K, V>(entries: map<Node<K, V>, V>, eq: (K, K) -> bool) {
    forall n, m :: n in entries && m in entries && eq(n.key, m.key) ==> n == m
  }

  lemma GetIs<K(!new), V>(entries: map<Node<K, V>, V>, eq: (K, K) -> bool, hash: K -> nat, n: Node<K, V>, q: K)
    requires Lawful(eq, hash) && OneEach(entries, eq) && n in entries && eq(n.key, q)
    ensures Get(entries, eq, q) == Some(entries[n])
  {
    forall m | m in entries && eq(m.key, q) ensures m == n {
      assert eq(q, n.key) && eq(m.key, n.key);
    }
  }

  /** An entry set or added under `key` answers for the keys equal to it, and for no other. */
  lemma GetAfterPut<K(!new), V>(entries: map<Node<K, V>, V>, eq: (K, K) -> bool, hash: K -> nat, at: Node<K, V>,
                                key: K, val: V, q: K)
    requires Lawful(eq, hash) && OneEach(entries, eq) && eq(at.key, key)
    requires at in entries || !Has(entries.Keys, eq, key)
    ensures Get(entries[at := val], eq, q) == if eq(key, q) then Some(val) else Get(entries, eq, q)
  {
    var e := entries[at := val];
    assert eq(key, at.key);
    forall n, m | n in e && m in e && eq(n.key, m.key) ensures n == m {
      assert eq(m.key, n.key);
    }
    if eq(key, q) {
      assert eq(at.key, q);
      GetIs(e, eq, hash, at, q);
    } else if Has(entries.Keys, eq, q) {
      var n :| n in entries && eq(n.key, q);
      assert n == at ==> eq(key, q);
      GetIs(entries, eq, hash, n, q);
      GetIs(e, eq, hash, n, q);
    } else {
      assert !Has(e.Keys, eq, q) by {
        assert eq(at.key, q) ==> eq(key, q);
      }
    }
  }

  lemma GetAfterRemove<K(!new), V>(entries: map<Node<K, V>, V>, eq: (K, K) -> bool, hash: K -> nat, at: Node<K, V>,
                                   q: K)
    requires Lawful(eq, hash) && OneEach(entries, eq) && at in entries
    ensures Get(entries - {at}, eq, q) == if eq(at.key, q) then None else Get(entries, eq, q)
  {
    var e := entries - {at};
    if Has(e.Keys, eq, q) {
      var n :| n in e && eq(n.key, q);
      GetIs(entries, eq, hash, n, q);
      GetIs(e, eq, hash, n, q);
    } else if Has(entries.Keys, eq, q) {
      var n :| n in entries && eq(n.key, q);
      assert n == at;
    } else {
      assert !eq(at.key, q);
    }
  }

  lemma OneFor<K(!new), V>(entries: map<Node<K, V>, V>, eq: (K, K) -> bool, hash: K -> nat, n: Node<K, V>,
                           m: Node<K, V>, q: K)
    requires Lawful(eq, hash) && OneEach(entries, eq) && n in entries && m in entries && eq(n.key, q) && eq(m.key, q)
    ensures n == m
  {
    assert eq(q, m.key) && eq(n.key, m.key);
  }

  /** With some entries gone, a key is answered as before if its entry stayed and not at all if it went. */
  lemma GetAfterRetain<K(!new), V>(entries: map<Node<K, V>, V>, kept: map<Node<K, V>, V>, eq: (K, K) -> bool,
                                   hash: K -> nat, n: Node<K, V>, q: K)
    requires Lawful(eq, hash) && OneEach(entries, eq) && n in entries && eq(n.key, q)
    requires kept.Keys <= entries.Keys && forall m :: m in kept ==> kept[m] == entries[m]
    ensures Get(kept, eq, q) == if n in kept then Some(entries[n]) else None
  {
    GetIs(entries, eq, hash, n, q);
    forall m | m in kept && eq(m.key, q) ensures m == n {
      assert eq(q, n.key) && eq(m.key, n.key);
    }
  }

  // ----- a chain while retain walks it

  /**
   k nodes of chain i have been passed and p of them were kept: what is left of the chain is what was
   left of it at first, and no other chain has changed.
   */
  ghost predicate Passed<K, V>(chains: seq<seq<Node<K, V>>>, i: nat, p: nat, first: seq<seq<Node<K, V>>>, k: nat,
                               doomed: set<Node<K, V>>)
    requires i < |chains| && i < |first|
  {
    && p <= |chains[i]| && k <= |first[i]| && chains[i][p..] == first[i][k..]
    && (forall m :: 0 <= m < p ==> chains[i][m] !in doomed)
    && |chains| == |first| && forall j :: 0 <= j < |chains| && j != i ==> chains[j] == first[j]
  }

  lemma PassedStart<K, V>(first: seq<seq<Node<K, V>>>, i: nat, doomed: set<Node<K, V>>)
    requires i < |first|
    ensures Passed(first, i, 0, first, 0, doomed)
  {
  }

  lemma PassedStep<K, V>(chains: seq<seq<Node<K, V>>>, i: nat, p: nat, first: seq<seq<Node<K, V>>>, k: nat,
                         doomed: set<Node<K, V>>)
    requires i < |chains| && i < |first| && Passed(chains, i, p, first, k, doomed) && p < |chains[i]|
    ensures k < |first[i]| && chains[i][p] == first[i][k] && |Cut(chains, i, p)| == |chains|
    ensures chains[i][p] !in doomed ==> Passed(chains, i, p + 1, first, k + 1, doomed)
    ensures chains[i][p] in doomed ==> Passed(Cut(chains, i, p), i, p, first, k + 1, doomed)
  {
    var c, was := chains[i], first[i];
    assert c[p] == c[p..][0] && was[k] == was[k..][0];
    assert c[p + 1..] == c[p..][1..] && was[k + 1..] == was[k..][1..];
    assert (c[..p] + c[p + 1..])[p..] == c[p + 1..];
  }

  lemma PassedEnd<K, V>(chains: seq<seq<Node<K, V>>>, i: nat, p: nat, first: seq<seq<Node<K, V>>>, k: nat,
                        doomed: set<Node<K, V>>)
    requires i < |chains| && i < |first| && Passed(chains, i, p, first, k, doomed) && p == |chains[i]|
    ensures k == |first[i]| && |chains| == |first| && forall j :: 0 <= j < |chains| && j != i ==> chains[j] == first[j]
    ensures forall n :: n in chains[i] ==> n !in doomed
  {
    assert |chains[i][p..]| == |first[i][k..]|;
  }

  /** Nothing has gone but doomed nodes of bucket i. */
  ghost predicate Thinned<K, V>(nodes: set<Node<K, V>>, all: set<Node<K, V>>, doomed: set<Node<K, V>>, i: nat,
                                count: nat) {
    && nodes <= all && IsCount(count)
    && forall n :: n in all && n !in nodes ==> BucketIn(n.hash, count) == i && n in doomed
  }

  lemma ThinnedStart<K, V>(nodes: set<Node<K, V>>, doomed: set<Node<K, V>>, i: nat, count: nat)
    requires IsCount(count)
    ensures Thinned(nodes, nodes, doomed, i, count)
  {
  }

  lemma ThinnedStep<K, V>(nodes: set<Node<K, V>>, all: set<Node<K, V>>, n: Node<K, V>, doomed: set<Node<K, V>>, i: nat,
                          count: nat)
    requires Thinned(nodes, all, doomed, i, count) && IsCount(count) && BucketIn(n.hash, count) == i
    ensures n in doomed ==> Thinned(nodes - {n}, all, doomed, i, count)
  {
  }

  lemma ThinnedEnd<K, V>(chains: seq<seq<Node<K, V>>>, nodes: set<Node<K, V>>, all: set<Node<K, V>>,
                         doomed: set<Node<K, V>>, i: nat)
    requires i < |chains| && Thinned(nodes, all, doomed, i, |chains|) && IsCount(|chains|)
    requires forall n :: n in nodes && BucketIn(n.hash, |chains|) == i ==> n in chains[i]
    requires forall n :: n in chains[i] ==> n !in doomed
    ensures nodes <= all && forall n :: n in all ==> (n in nodes <==> BucketIn(n.hash, |chains|) != i || n !in doomed)
  {
    hide BucketIn;
  }

  // ----- the map

  class HMap<K(!new), V> {
    const hash: K -> nat
    const eq: (K, K) -> bool
    var buckets: array<Node?<K, V>>
    var len: nat
    ghost var chains: seq<seq<Node<K, V>>>
    ghost var nodes: set<Node<K, V>>

    ghost predicate Valid()
      reads this, buckets, nodes`next
    {
      && Lawful(eq, hash)
      && Threaded(buckets[..], chains, nodes) && Bucketed(chains, nodes) && Keyed(nodes, eq, hash)
      && len == |nodes| <= buckets.Length <= SIZE_MAX
    }

    /** The entries, by node: a node keeps its key for life, and its address with it. */
    ghost function Entries(): map<Node<K, V>, V>
      reads this, nodes
    {
      map n | n in nodes :: n.val
    }

    constructor (hash: K -> nat, eq: (K, K) -> bool)
      requires Lawful(eq, hash)
      ensures Valid() && nodes == {} && this.hash == hash && this.eq == eq && fresh(buckets) && buckets.Length == 0
    {
      this.hash, this.eq := hash, eq;
      buckets, len := new Node?<K, V>[0], 0;
      chains, nodes := [], {};
    }

    /** find_node. */
    method FindNode(key: K, h: nat) returns (node: Node?<K, V>)
      requires Valid() && h == hash(key)
      ensures node != null ==> node in nodes && eq(node.key, key)
      ensures node == null ==> forall n :: n in nodes ==> !eq(n.key, key)
    {
      hide Lawful, Keyed, BucketIn, IsCount, Threaded, Bucketed;
      node := null;
      NoBuckets();
      if buckets.Length == 0 {
        return;
      }
      Count();
      var b := BucketIn(h, buckets.Length);
      ghost var c := chains[b];
      Head(buckets[..], chains, nodes, b);
      node := buckets[b];
      ghost var k := 0;
      while node != null && !(node.hash == h && eq(node.key, key))
        invariant k <= |c| && node == At(c, k) && Missing(c, 0, k, key, eq)
        decreases |c| - k
      {
        Step(buckets[..], chains, nodes, b, k);
        OwnHash(nodes, eq, hash, c[k], key);
        node, k := node.next, k + 1;
      }
      if node == null {
        MissingEverywhere(chains, nodes, key, eq, hash);
      } else {
        Step(buckets[..], chains, nodes, b, k);
      }
    }

    /** rehash: the nodes stay, and so do their entries. */
    method Rehash(newCount: nat, granted: bool) returns (status: Status)
      requires Valid() && IsCount(newCount) && len <= newCount <= SIZE_MAX
      modifies this`buckets, this`chains, nodes`next
      ensures Valid() && (status == Ok <==> granted) && Entries() == old(Entries())
      ensures if status == Ok then fresh(buckets) && buckets.Length == newCount else buckets == old(buckets)
    {
      hide Lawful, Keyed, Threaded, Bucketed, IsCount;
      status := NoMem;
      if granted {
        var grown := new Node?<K, V>[newCount](_ => null);
        chains := Relink(buckets, grown, chains, nodes);
        buckets, status := grown, Ok;
      }
    }

    /** reserve_buckets: one entry per bucket at most. */
    method Reserve(cap: nat, granted: bool) returns (status: Status)
      requires Valid()
      modifies this`buckets, this`chains, nodes`next
      ensures Valid() && Entries() == old(Entries())
      ensures status == Ok <==> cap <= old(buckets.Length) || (granted && cap <= Pow2(63))
      ensures status == Ok ==> cap <= buckets.Length
      ensures status == Ok && cap > old(buckets.Length) ==>
                buckets.Length == BUCKETS_BASE || (buckets.Length > BUCKETS_BASE && buckets.Length / 2 < cap)
      ensures status == NoMem || cap <= old(buckets.Length) ==> buckets == old(buckets)
      ensures buckets == old(buckets) || fresh(buckets)
    {
      hide Lawful, Keyed, Threaded, Bucketed, IsCount, Pow2;
      status := Ok;
      if cap > buckets.Length {
        var want := BucketsFor(cap);
        if want == 0 {
          status := NoMem;
        } else {
          status := Rehash(want, granted);
        }
      }
    }

    lemma Count()
      requires Valid() && (buckets.Length > 0 || |chains| > 0)
      ensures IsCount(buckets.Length) && |chains| == buckets.Length
    {
    }

    method Enter(node: Node<K, V>)
      requires Valid() && len < buckets.Length && node.hash == hash(node.key)
      requires forall n :: n in nodes ==> !eq(n.key, node.key)
      modifies this`chains, this`nodes, this`len, buckets, node`next
      ensures Valid() && nodes == old(nodes) + {node} && node !in old(nodes) && len == old(len) + 1
    {
      hide Lawful, Keyed, Threaded, Bucketed, IsCount;
      Count();
      KeyedWith(nodes, eq, hash, node);
      PushedBucketed(chains, nodes, node);
      LinkNode(buckets, node, chains, nodes);
      chains, nodes, len := Pushed(chains, node), nodes + {node}, len + 1;
    }

    /** add_node: room first, since growing may change the bucket; then the node. */
    method AddNode(key: K, val: V, h: nat, room: bool, granted: bool) returns (node: Node?<K, V>)
      requires Valid() && h == hash(key) && forall n :: n in nodes ==> !eq(n.key, key)
      modifies this, buckets, nodes`next
      ensures Valid() && (buckets == old(buckets) || fresh(buckets))
      ensures node != null <==> granted && (old(len) < old(buckets.Length) || (room && old(len) < Pow2(63)))
      ensures node == null ==> nodes == old(nodes) && Entries() == old(Entries()) && len == old(len)
      ensures node != null ==> len == old(len) + 1
      ensures node != null ==> fresh(node) && node.key == key && nodes == old(nodes) + {node}
      ensures node != null ==> Entries() == old(Entries())[node := val]
    {
      hide Lawful, Keyed, Threaded, Bucketed, IsCount, Pow2;
      node := null;
      var status := Reserve(len + 1, room);
      if status == Ok && granted {
        var made := new Node(key, val, h);
        Enter(made);
        node := made;
      }
    }

    /** tda_hmap_insert as the map sees it: the key, and every key equal to it, now has the value. */
    method Put(key: K, val: V, room: bool, granted: bool) returns (status: Status, isNew: bool)
      requires Valid()
      modifies this, buckets, nodes
      ensures Valid() && (buckets == old(buckets) || fresh(buckets)) && fresh(nodes - old(nodes))
      ensures status == Ok
              <==> || Has(old(nodes), eq, key)
                   || (granted && (old(len) < old(buckets.Length) || (room && old(len) < Pow2(63))))
      ensures status == Ok ==> isNew == !Has(old(nodes), eq, key)
      ensures len == old(len) + if status == Ok && isNew then 1 else 0
      ensures forall q :: Get(Entries(), eq, q)
                          == if status == Ok && eq(key, q) then Some(val) else Get(old(Entries()), eq, q)
    {
      hide Keyed, Threaded, Bucketed, Lawful, Get, Has;
      ghost var was := Entries();
      assert was.Keys == nodes;
      OneEachHere();
      ghost var at;
      status, isNew, at := Insert(key, val, room, granted);
      if status == Ok {
        forall q ensures Get(Entries(), eq, q) == if eq(key, q) then Some(val) else Get(was, eq, q) {
          GetAfterPut(was, eq, hash, at, key, val, q);
        }
      }
    }

    /** tda_hmap_remove as the map sees it: the key, and every key equal to it, has no value. */
    method Delete(key: K) returns (removed: bool)
      requires Valid()
      modifies this`len, this`chains, this`nodes, buckets, nodes`next
      ensures Valid() && nodes <= old(nodes) && removed == Has(old(nodes), eq, key)
      ensures len == old(len) - if removed then 1 else 0
      ensures forall q :: Get(Entries(), eq, q) == if eq(key, q) then None else Get(old(Entries()), eq, q)
    {
      hide Keyed, Threaded, Bucketed, Lawful, Get, Has;
      ghost var was := Entries();
      assert was.Keys == nodes;
      OneEachHere();
      ghost var at;
      removed, at := Remove(key);
      forall q ensures Get(Entries(), eq, q) == if eq(key, q) then None else Get(was, eq, q) {
        if removed {
          GetAfterRemove(was, eq, hash, at, q);
          SameFor(eq, hash, at.key, key, q);
        } else {
          NotFound(was, eq, hash, key, q);
        }
      }
    }

    lemma HasIsGet(key: K)
      requires Valid()
      ensures Has(nodes, eq, key) <==> Get(Entries(), eq, key).Some?
    {
      hide Keyed, Threaded, Bucketed, Lawful;
      assert Entries().Keys == nodes;
    }

    lemma OneEachHere()
      requires Valid()
      ensures OneEach(Entries(), eq)
    {
    }

    /** tda_hmap_insert; `at` is the node that now holds the key. */
    method Insert(key: K, val: V, room: bool, granted: bool)
      returns (status: Status, isNew: bool, ghost at: Node?<K, V>)
      requires Valid()
      modifies this, buckets, nodes
      ensures Valid() && (buckets == old(buckets) || fresh(buckets))
      ensures status == Ok
              <==> || Has(old(nodes), eq, key)
                   || (granted && (old(len) < old(buckets.Length) || (room && old(len) < Pow2(63))))
      ensures len == old(len) + if status == Ok && isNew then 1 else 0
      ensures status == NoMem ==> nodes == old(nodes) && Entries() == old(Entries()) && !Has(old(nodes), eq, key)
      ensures status == Ok ==> at != null && eq(at.key, key) && nodes == old(nodes) + {at}
      ensures status == Ok ==> Entries() == old(Entries())[at := val]
      ensures status == Ok && isNew ==> fresh(at) && at.key == key && !Has(old(nodes), eq, key)
      ensures status == Ok && !isNew ==> at in old(nodes) && nodes == old(nodes) && Has(old(nodes), eq, key)
      ensures Has(old(nodes), eq, key) ==> status == Ok && !isNew
    {
      hide Keyed, Threaded, Bucketed, IsCount, Pow2;
      var h := hash(key);
      var found := FindNode(key, h);
      if found != null {
        found.val := val;
        status, isNew, at := Ok, false, found;
      } else {
        var node := AddNode(key, val, h, room, granted);
        status, isNew, at := if node != null then Ok else NoMem, true, node;
      }
    }

    /** The value held for a key. */
    method Lookup(key: K) returns (val: Option<V>)
      requires Valid()
      ensures val == Get(Entries(), eq, key)
    {
      var node := FindNode(key, hash(key));
      if node != null {
        GetIs(Entries(), eq, hash, node, key);
      }
      val := if node != null then Some(node.val) else None;
    }

    /** find_link: the link that leads to the key's node, as the bucket and the node before it. */
    method FindLink(key: K) returns (b: nat, prev: Node?<K, V>, node: Node?<K, V>, ghost p: nat)
      requires Valid() && buckets.Length > 0
      ensures b < |chains| && p <= |chains[b]| && prev == At(chains[b], p - 1) && node == At(chains[b], p)
      ensures node != null ==> node in nodes && eq(node.key, key)
      ensures node == null ==> forall n :: n in nodes ==> !eq(n.key, key)
    {
      hide Lawful, Keyed, BucketIn, IsCount, Threaded, Bucketed;
      Count();
      var h := hash(key);
      b := BucketIn(h, buckets.Length);
      ghost var c := chains[b];
      Head(buckets[..], chains, nodes, b);
      prev, node, p := null, buckets[b], 0;
      while node != null && !(node.hash == h && eq(node.key, key))
        invariant p <= |c| && prev == At(c, p - 1) && node == At(c, p) && Missing(c, 0, p, key, eq)
        decreases |c| - p
      {
        Step(buckets[..], chains, nodes, b, p);
        OwnHash(nodes, eq, hash, c[p], key);
        prev, node, p := node, node.next, p + 1;
      }
      if node == null {
        MissingEverywhere(chains, nodes, key, eq, hash);
      } else {
        Step(buckets[..], chains, nodes, b, p);
      }
    }

    method TakeOut(b: nat, prev: Node?<K, V>, node: Node<K, V>, ghost p: nat)
      requires Valid() && b < |chains| && p < |chains[b]| && prev == At(chains[b], p - 1) && node == chains[b][p]
      modifies this`len, this`chains, this`nodes, buckets, nodes`next
      ensures Valid() && node in old(nodes) && nodes == old(nodes) - {node} && chains == Cut(old(chains), b, p)
      ensures old(len) > 0 && len == old(len) - 1
    {
      hide Lawful, Threaded, Bucketed;
      CutBucketed(chains, nodes, b, p);
      RemoveAt(buckets, b, prev, node, chains, nodes, p);
      chains, nodes, len := Cut(chains, b, p), nodes - {node}, len - 1;
    }

    /** tda_hmap_take and tda_hmap_remove. */
    method Remove(key: K) returns (removed: bool, ghost at: Node?<K, V>)
      requires Valid()
      modifies this`len, this`chains, this`nodes, buckets, nodes`next
      ensures Valid() && removed == Has(old(nodes), eq, key)
      ensures len == old(len) - if removed then 1 else 0
      ensures removed ==> at != null && at in old(nodes) && eq(at.key, key) && nodes == old(nodes) - {at}
      ensures removed ==> Entries() == old(Entries()) - {at}
      ensures !removed ==> nodes == old(nodes) && Entries() == old(Entries())
    {
      hide Lawful, Keyed, Threaded, Bucketed;
      removed, at := false, null;
      NoBuckets();
      if buckets.Length > 0 {
        var b, prev, node, p := FindLink(key);
        if node != null {
          TakeOut(b, prev, node, p);
          removed, at := true, node;
        }
      }
    }

    lemma NoBuckets()
      requires Valid()
      ensures buckets.Length == 0 ==> nodes == {}
    {
    }

    /** first_from: the first node from a bucket on. */
    method FirstFrom(idx: nat) returns (node: Node?<K, V>)
      requires Valid() && idx <= buckets.Length
      ensures |Laid(chains, idx)| <= |WalkOrder(chains)| && node == At(WalkOrder(chains), |Laid(chains, idx)|)
    {
      hide Lawful, Keyed, Bucketed;
      var i := idx;
      while i < buckets.Length && buckets[i] == null
        invariant idx <= i <= buckets.Length && forall j :: idx <= j < i ==> chains[j] == []
      {
        i := i + 1;
      }
      LaidGrows(chains, idx, i);
      LaidGrows(chains, i, |chains|);
      node := null;
      if i < buckets.Length {
        LaidAt(chains, |chains|, i, 0);
        node := buckets[i];
      }
    }

    /** next_node: down the chain, then on to the next bucket. */
    method NextNode(node: Node<K, V>, ghost t: nat) returns (next: Node?<K, V>)
      requires Valid() && t < |WalkOrder(chains)| && node == WalkOrder(chains)[t]
      ensures next == At(WalkOrder(chains), t + 1)
    {
      hide Lawful, Keyed, BucketIn, IsCount, Threaded, Bucketed, Laid;
      Placed(chains, nodes, t);
      Count();
      var b := BucketIn(node.hash, buckets.Length);
      ghost var k :| 0 <= k < |chains[b]| && chains[b][k] == node && t == |Laid(chains, b)| + k;
      Step(buckets[..], chains, nodes, b, k);
      LaidStep(chains, b);
      if node.next != null {
        LaidAt(chains, |chains|, b, k + 1);
        next := node.next;
      } else {
        next := FirstFrom(b + 1);
      }
    }

    /** A whole walk: every node once. */
    method Walk() returns (visited: seq<Node<K, V>>)
      requires Valid()
      ensures visited == WalkOrder(chains) && Distinct(visited) && |visited| == len && Elems(visited) == nodes
    {
      hide Lawful, Keyed, Threaded, Bucketed, Elems, Distinct;
      WalkIsOnce(chains, nodes);
      assert Laid(chains, 0) == [];
      hide Laid, WalkOrder;
      visited := [];
      var node := FirstFrom(0);
      while node != null
        invariant |visited| <= |WalkOrder(chains)| && visited == WalkOrder(chains)[..|visited|]
        invariant node == At(WalkOrder(chains), |visited|)
        decreases |WalkOrder(chains)| - |visited|
      {
        var next := NextNode(node, |visited|);
        visited, node := visited + [node], next;
      }
    }

    /** A node of this map that `other` answers, and with a value that agrees. */
    ghost predicate Answered(n: Node<K, V>, other: HMap<K, V>, agree: (V, V) -> bool)
      reads n, other`nodes, other.nodes
    {
      exists m :: m in other.nodes && other.eq(m.key, n.key) && agree(n.val, m.val)
    }

    /** The pass of eq_impl, and of keys_all_in when every two values agree. */
    method AllAnswered(other: HMap<K, V>, agree: (V, V) -> bool) returns (all: bool)
      requires Valid() && other.Valid()
      ensures all <==> forall n :: n in nodes ==> Answered(n, other, agree)
    {
      hide Keyed, Threaded, Bucketed, Elems, Distinct, Lawful;
      WalkIsOnce(chains, nodes);
      assert Laid(chains, 0) == [];
      hide Laid, WalkOrder;
      ghost var w, t := WalkOrder(chains), 0;
      var node := FirstFrom(0);
      all := true;
      while node != null && all
        invariant t <= |w| && node == At(w, t)
        invariant all ==> forall k :: 0 <= k < t ==> Answered(w[k], other, agree)
        invariant !all ==> exists n :: n in nodes && !Answered(n, other, agree)
        decreases |w| - t
      {
        var found := other.FindNode(node.key, other.hash(node.key));
        OnlyOne(other.nodes, other.eq, other.hash, node.key);
        all := found != null && agree(node.val, found.val);
        if !all {
          assert !Answered(node, other, agree) && node in nodes;
        }
        node := NextNode(node, t);
        t := t + 1;
      }
      if all {
        AllVisited(w, nodes);
      }
    }

    /** eq_impl: equal lengths and one pass decide it, since the keys of each are distinct. */
    method Equals(other: HMap<K, V>, agree: (V, V) -> bool) returns (same: bool)
      requires Valid() && other.Valid() && eq == other.eq
      ensures same <==> this == other || SameMap(Entries(), other.Entries(), eq, agree)
    {
      hide Keyed, Threaded, Bucketed, Lawful, Get, Agree;
      ghost var a, b := Entries(), other.Entries();
      assert a.Keys == nodes && b.Keys == other.nodes;
      SameByPass(a, b, eq, hash, other.hash, agree);
      if this == other {
        return true;
      }
      if len != other.len {
        return false;
      }
      same := AllAnswered(other, agree);
      assert forall n :: n in nodes ==> (Answered(n, other, agree) <==> Answers(a, b, eq, agree, n));
    }

    /** A map another map may be checked against while that one changes. */
    ghost predicate Apart(other: HMap?<K, V>)
      reads this, other, if other == null then {} else {other.buckets}, if other == null then {} else other.nodes
    {
      other != null ==>
        other != this && other.Valid() && other.eq == eq && other.nodes !! nodes && other.buckets != buckets
    }

    /**
     What retain asks of the t-th entry it comes to: the callback, whose answer may depend on what it was
     asked before, or whether `other` has the key.
     */
    ghost predicate Keeps(t: nat, n: Node<K, V>, ask: (nat, K, V) -> bool, other: HMap?<K, V>, want: bool)
      reads n`val, (if other == null then {} else {other})`nodes
    {
      if other == null then ask(t, n.key, n.val) else Has(other.nodes, eq, n.key) == want
    }

    method Decide(t: nat, n: Node<K, V>, ask: (nat, K, V) -> bool, other: HMap?<K, V>, want: bool) returns (keep: bool)
      requires Apart(other)
      ensures keep == Keeps(t, n, ask, other, want)
    {
      if other == null {
        keep := ask(t, n.key, n.val);
      } else {
        var node := other.FindNode(n.key, other.hash(n.key));
        Sym(eq, other.hash, n.key);
        keep := (node != null) == want;
      }
    }

    /** `doomed` are the nodes of the walk that retain does not keep. */
    ghost predicate Dooms(w: seq<Node<K, V>>, doomed: set<Node<K, V>>, ask: (nat, K, V) -> bool, other: HMap?<K, V>,
                          want: bool)
      reads w`val, (if other == null then {} else {other})`nodes
    {
      forall t :: 0 <= t < |w| ==> (w[t] in doomed <==> !Keeps(t, w[t], ask, other, want))
    }

    lemma DoomsStart(w: seq<Node<K, V>>, ask: (nat, K, V) -> bool, other: HMap?<K, V>, want: bool)
      returns (doomed: set<Node<K, V>>)
      requires Distinct(w)
      ensures Dooms(w, doomed, ask, other, want)
    {
      doomed := set t: nat | t < |w| && !Keeps(t, w[t], ask, other, want) :: w[t];
    }

    lemma DoomsTells(w: seq<Node<K, V>>, doomed: set<Node<K, V>>, ask: (nat, K, V) -> bool, other: HMap?<K, V>,
                     want: bool, t: nat)
      requires Dooms(w, doomed, ask, other, want) && t < |w|
      ensures w[t] in doomed <==> !Keeps(t, w[t], ask, other, want)
    {
    }

    /** A node is kept, or its link is led past it; `next` is where the walk goes on. */
    method RetainNode(i: nat, prev: Node?<K, V>, node: Node<K, V>, t: nat, ask: (nat, K, V) -> bool, other: HMap?<K, V>,
                      want: bool, ghost w: seq<Node<K, V>>, ghost doomed: set<Node<K, V>>, ghost p: nat)
      returns (prev': Node?<K, V>, next: Node?<K, V>, ghost p': nat)
      requires Valid() && i < |chains| && p < |chains[i]| && prev == At(chains[i], p - 1) && node == chains[i][p]
      requires Apart(other) && t < |w| && node == w[t] && Dooms(w, doomed, ask, other, want)
      modifies this`len, this`chains, this`nodes, buckets, nodes`next
      ensures Valid() && Apart(other) && node in old(nodes) && Dooms(w, doomed, ask, other, want)
      ensures nodes == if node in doomed then old(nodes) - {node} else old(nodes)
      ensures chains == if node in doomed then Cut(old(chains), i, p) else old(chains)
      ensures p' == if node in doomed then p else p + 1
      ensures prev' == At(chains[i], p' - 1) && next == At(chains[i], p')
    {
      hide Lawful, Keyed, BucketIn, IsCount, Threaded, Bucketed, Keeps, Dooms;
      Step(buckets[..], chains, nodes, i, p);
      DoomsTells(w, doomed, ask, other, want, t);
      var keep := Decide(t, node, ask, other, want);
      prev', next, p' := prev, node.next, p;
      if keep {
        prev', p' := node, p + 1;
      } else {
        TakeOut(i, prev, node, p);
      }
    }

    /** One chain of retain: a link is led past each entry that is not kept, and moves on past each that is. */
    method RetainChain(i: nat, t: nat, ask: (nat, K, V) -> bool, other: HMap?<K, V>, want: bool,
                       ghost w: seq<Node<K, V>>, ghost doomed: set<Node<K, V>>)
      returns (t': nat)
      requires Valid() && i < |chains| && IsCount(buckets.Length) && Apart(other) && Dooms(w, doomed, ask, other, want)
      requires t + |chains[i]| <= |w| && forall k :: 0 <= k < |chains[i]| ==> chains[i][k] == w[t + k]
      modifies this`len, this`chains, this`nodes, buckets, nodes`next
      ensures Valid() && Apart(other) && Dooms(w, doomed, ask, other, want) && nodes <= old(nodes)
      ensures t' == t + |old(chains[i])| && |chains| == |old(chains)|
      ensures forall j :: 0 <= j < |chains| && j != i ==> chains[j] == old(chains)[j]
      ensures forall n :: n in old(nodes) ==> (n in nodes <==> BucketIn(n.hash, buckets.Length) != i || n !in doomed)
    {
      hide Lawful, Keyed, BucketIn, IsCount, Threaded, Bucketed, Dooms, Apart, Passed, Thinned, Cut;
      Count();
      Head(buckets[..], chains, nodes, i);
      var prev: Node?<K, V>, node := null, buckets[i];
      ghost var p, k, first, all := 0, 0, chains, nodes;
      PassedStart(first, i, doomed);
      ThinnedStart(nodes, doomed, i, buckets.Length);
      t' := t;
      while node != null
        invariant Valid() && Apart(other) && Dooms(w, doomed, ask, other, want) && i < |chains| == buckets.Length
        invariant p <= |chains[i]| && prev == At(chains[i], p - 1) && node == At(chains[i], p)
        invariant k <= |first[i]| && t' == t + k && Passed(chains, i, p, first, k, doomed)
        invariant Thinned(nodes, all, doomed, i, buckets.Length) && nodes <= all
        decreases |first[i]| - k
      {
        InBucket(chains, nodes, i, p);
        PassedStep(chains, i, p, first, k, doomed);
        assert first[i][k] == w[t + k];
        ThinnedStep(nodes, all, node, doomed, i, buckets.Length);
        prev, node, p := RetainNode(i, prev, node, t', ask, other, want, w, doomed, p);
        t', k := t' + 1, k + 1;
      }
      PassedEnd(chains, i, p, first, k, doomed);
      AllOf(chains, nodes, i);
      ThinnedEnd(chains, nodes, all, doomed, i);
    }

    /** All chains, one after the other. */
    method RetainAll(ask: (nat, K, V) -> bool, other: HMap?<K, V>, want: bool, ghost w: seq<Node<K, V>>,
                     ghost doomed: set<Node<K, V>>)
      requires Valid() && Apart(other) && w == WalkOrder(chains) && Dooms(w, doomed, ask, other, want)
      modifies this`len, this`chains, this`nodes, buckets, nodes`next
      ensures Valid() && Apart(other) && Dooms(w, doomed, ask, other, want)
      ensures nodes <= old(nodes) && forall n :: n in old(nodes) ==> (n in nodes <==> n !in doomed)
    {
      hide Lawful, Keyed, BucketIn, IsCount, Threaded, Bucketed, Dooms, Apart, Laid, WalkOrder;
      NoBuckets();
      if buckets.Length > 0 {
        Count();
        ghost var first := chains;
        NoneLaid(first);
        var i, t := 0, 0;
        while i < buckets.Length
          invariant i <= buckets.Length == |chains| == |first| && IsCount(buckets.Length) && Valid() && Apart(other)
          invariant Dooms(w, doomed, ask, other, want) && nodes <= old(nodes) && t == |Laid(first, i)|
          invariant forall j :: i <= j < |chains| ==> chains[j] == first[j]
          invariant forall n :: n in old(nodes) ==>
                      (n in nodes <==> BucketIn(n.hash, buckets.Length) >= i || n !in doomed)
        {
          LaidHere(first, i);
          t := RetainChain(i, t, ask, other, want, w, doomed);
          i := i + 1;
        }
      }
    }

    lemma KeptAre(w: seq<Node<K, V>>, doomed: set<Node<K, V>>, ask: (nat, K, V) -> bool, other: HMap?<K, V>, want: bool,
                  all: set<Node<K, V>>)
      requires Dooms(w, doomed, ask, other, want) && Elems(w) == all
      requires forall n :: n in all ==> (n in nodes <==> n !in doomed)
      ensures forall t :: 0 <= t < |w| ==> (w[t] in nodes <==> Keeps(t, w[t], ask, other, want))
    {
      forall t | 0 <= t < |w| ensures w[t] in nodes <==> Keeps(t, w[t], ask, other, want) {
        assert w[t] in Elems(w);
      }
    }

    /** An equal of the key is kept. */
    ghost predicate KeptFor(w: seq<Node<K, V>>, q: K, ask: (nat, K, V) -> bool, other: HMap?<K, V>, want: bool)
      reads w`val, (if other == null then {} else {other})`nodes
    {
      exists t :: 0 <= t < |w| && eq(w[t].key, q) && Keeps(t, w[t], ask, other, want)
    }

    lemma GetKept(w: seq<Node<K, V>>, was: map<Node<K, V>, V>, ask: (nat, K, V) -> bool, other: HMap?<K, V>,
                  want: bool, q: K)
      requires Lawful(eq, hash) && OneEach(was, eq) && Elems(w) == was.Keys && nodes <= was.Keys
      requires forall n :: n in nodes ==> Entries()[n] == was[n]
      requires forall t :: 0 <= t < |w| ==> (w[t] in nodes <==> Keeps(t, w[t], ask, other, want))
      ensures Get(Entries(), eq, q) == if KeptFor(w, q, ask, other, want) then Get(was, eq, q) else None
    {
      hide Lawful, Get, Keeps;
      if n :| n in was && eq(n.key, q) {
        GetAfterRetain(was, Entries(), eq, hash, n, q);
        GetIs(was, eq, hash, n, q);
        assert n in Elems(w);
        forall t | 0 <= t < |w| && eq(w[t].key, q) ensures w[t] == n {
          assert w[t] in Elems(w);
          OneFor(was, eq, hash, w[t], n, q);
        }
      } else {
        forall t | 0 <= t < |w| ensures !eq(w[t].key, q) {
          assert w[t] in Elems(w);
        }
        GetNone(Entries(), eq, q);
      }
    }

    /**
     tda_hmap_retain: the walk asks about every entry once, and an entry stays exactly if it is kept; so a
     key is answered as before if its entry was kept and not at all otherwise.
     */
    method Retain(ask: (nat, K, V) -> bool, other: HMap?<K, V>, want: bool)
      requires Valid() && Apart(other)
      modifies this`len, this`chains, this`nodes, buckets, nodes`next
      ensures Valid() && Apart(other) && nodes <= old(nodes)
      ensures var w := old(WalkOrder(chains));
              && Distinct(w) && Elems(w) == old(nodes)
              && (forall t :: 0 <= t < |w| ==> (w[t] in nodes <==> Keeps(t, w[t], ask, other, want)))
              && forall q :: Get(Entries(), eq, q)
                   == if KeptFor(w, q, ask, other, want) then Get(old(Entries()), eq, q) else None
    {
      hide Lawful, Keyed, BucketIn, IsCount, Threaded, Bucketed, Keeps, Dooms, Apart, Get, WalkOrder, Distinct, Elems,
           KeptFor;
      ghost var w, was := WalkOrder(chains), Entries();
      WalkIsOnce(chains, nodes);
      OneEachHere();
      ghost var doomed := DoomsStart(w, ask, other, want);
      RetainAll(ask, other, want, w, doomed);
      assert was.Keys == old(nodes);
      KeptAre(w, doomed, ask, other, want, was.Keys);
      forall q ensures Get(Entries(), eq, q) == if KeptFor(w, q, ask, other, want) then Get(was, eq, q) else None {
        GetKept(w, was, ask, other, want, q);
      }
    }

    /** tda_hmap_clear: the buckets stay, all of them empty. */
    method Clear()
      requires Valid()
      modifies this`len, this`chains, this`nodes, buckets
      ensures Valid() && nodes == {}
    {
      hide Lawful, IsCount, Threaded, Bucketed, Keyed, NoChains;
      if buckets.Length > 0 {
        Count();
      }
      forall i | 0 <= i < buckets.Length {
        buckets[i] := null;
      }
      EmptyBuckets(buckets[..]);
      NoKeys<K, V>(eq, hash);
      chains, nodes, len := NoChains(buckets.Length), {}, 0;
    }

    lemma SomeBuckets()
      requires Valid() && len > 0
      ensures buckets.Length <= Pow2(63)
    {
      hide Lawful, Keyed, Threaded, Bucketed, Pow2;
      Count();
      CountAtMost(buckets.Length);
    }

    /** tda_hmap_shrink_to_fit: an empty map gives its buckets up, any other keeps the least that hold it. */
    method ShrinkToFit(granted: bool) returns (status: Status)
      requires Valid()
      modifies this`buckets, this`chains, nodes`next
      ensures Valid() && Entries() == old(Entries()) && (buckets == old(buckets) || fresh(buckets))
      ensures status == NoMem ==> buckets == old(buckets) && !granted && len > 0
      ensures status == Ok && len == 0 ==> buckets.Length == 0
      ensures status == Ok && len > 0 ==>
                buckets.Length <= old(buckets.Length) && (buckets.Length <= BUCKETS_BASE || buckets.Length / 2 < len)
    {
      hide Lawful, Keyed, Threaded, Bucketed, IsCount, Pow2;
      status := Ok;
      if len == 0 {
        Emptied(nodes);
        buckets, chains := new Node?<K, V>[0], [];
        assert buckets[..] == [];
      } else {
        SomeBuckets();
        var want := BucketsFor(len);
        if want != 0 && want < buckets.Length {
          status := Rehash(want, granted);
        }
      }
    }
  }

  // ----- whole runs

  /** Something a client does with a map; refusals of memory are part of it. */
  datatype MapOp<K, V> = OpPut(key: K, val: V, room: bool, granted: bool) | OpDelete(key: K) | OpLookup(key: K)
                       | OpReserve(cap: nat, granted: bool) | OpShrink(granted: bool) | OpClear

  /** What a key has after an operation, given what it had before; `ok` is whether memory was served. */
  function Effect<K, V>(op: MapOp<K, V>, ok: bool, eq: (K, K) -> bool, q: K, before: Option<V>): Option<V> {
    match op
    case OpPut(key, val, _, _) => if ok && eq(key, q) then Some(val) else before
    case OpDelete(key) => if eq(key, q) then None else before
    case OpClear => None
    case _ => before
  }

  /** What a key has after the first n operations. */
  function ValueAfter<K, V>(ops: seq<MapOp<K, V>>, oks: seq<bool>, n: nat, eq: (K, K) -> bool, q: K,
                            before: Option<V>): Option<V>
    requires n <= |ops| && n <= |oks|
  {
    if n == 0 then before else Effect(ops[n - 1], oks[n - 1], eq, q, ValueAfter(ops, oks, n - 1, eq, q, before))
  }

  method Do<K(!new), V>(m: HMap<K, V>, op: MapOp<K, V>) returns (ok: bool, answer: Option<V>)
    requires m.Valid()
    modifies m, m.buckets, m.nodes
    ensures m.Valid() && (m.buckets == old(m.buckets) || fresh(m.buckets)) && fresh(m.nodes - old(m.nodes))
    ensures forall q :: Get(m.Entries(), m.eq, q) == Effect(op, ok, m.eq, q, Get(old(m.Entries()), m.eq, q))
    ensures op.OpLookup? ==> answer == Get(old(m.Entries()), m.eq, op.key)
    ensures op.OpPut? && op.room && op.granted && old(m.len) < Pow2(63) ==> ok
    ensures op.OpPut? && Get(old(m.Entries()), m.eq, op.key).Some? ==> ok
    ensures op.OpPut? && ok ==> op.granted || Get(old(m.Entries()), m.eq, op.key).Some?
    ensures SizeStep(op, old(m.len), m.len)
  {
    hide Lawful, Keyed, Threaded, Bucketed, Get, Has, Pow2;
    ok, answer := true, None;
    match op
    case OpPut(key, val, room, granted) =>
      m.HasIsGet(key);
      var status, _ := m.Put(key, val, room, granted);
      ok := status == Ok;
    case OpDelete(key) =>
      var _ := m.Delete(key);
    case OpLookup(key) =>
      answer := m.Lookup(key);
    case OpReserve(cap, granted) =>
      var status := m.Reserve(cap, granted);
      ok := status == Ok;
    case OpShrink(granted) =>
      var status := m.ShrinkToFit(granted);
      ok := status == Ok;
    case OpClear =>
      m.Clear();
      forall q ensures Get(m.Entries(), m.eq, q) == None {
        GetNone(m.Entries(), m.eq, q);
      }
  }

  /** How the number of entries may change. */
  predicate SizeStep<K, V>(op: MapOp<K, V>, before: nat, after: nat) {
    match op
    case OpPut(_, _, _, _) => before <= after <= before + 1
    case OpDelete(_) => after <= before <= after + 1
    case OpClear => after == 0
    case _ => after == before
  }

  /** Whether the operation is about the key. */
  predicate Touches<K, V>(op: MapOp<K, V>, eq: (K, K) -> bool, q: K) {
    op.OpClear? || ((op.OpPut? || op.OpDelete?) && eq(op.key, q))
  }

  /**
   Over any run the map is a map: a lookup answers with the value last put for an equal key and not
   deleted or cleared since, whatever was rehashed, refused or shrunk in between.  `sizes` are the
   numbers of entries before each operation and at the end: with memory granted and fewer than 2^63
   entries a put is served, and one for a key that has a value always is.
   */
  method RunMap<K(!new), V>(m: HMap<K, V>, ops: seq<MapOp<K, V>>)
    returns (oks: seq<bool>, answers: seq<Option<V>>, ghost sizes: seq<nat>)
    requires m.Valid()
    modifies m, m.buckets, m.nodes
    ensures m.Valid() && (m.buckets == old(m.buckets) || fresh(m.buckets)) && fresh(m.nodes - old(m.nodes))
    ensures |oks| == |answers| == |ops|
    ensures forall q :: Get(m.Entries(), m.eq, q)
                        == ValueAfter(ops, oks, |ops|, m.eq, q, Get(old(m.Entries()), m.eq, q))
    ensures forall i :: 0 <= i < |ops| && ops[i].OpLookup? ==>
              answers[i] == ValueAfter(ops, oks, i, m.eq, ops[i].key, Get(old(m.Entries()), m.eq, ops[i].key))
    ensures |sizes| == |ops| + 1 && sizes[0] == old(m.len) && sizes[|ops|] == m.len
    ensures forall i :: 0 <= i < |ops| ==> SizeStep(ops[i], sizes[i], sizes[i + 1])
    ensures forall i :: 0 <= i < |ops| && ops[i].OpPut? && ops[i].room && ops[i].granted && sizes[i] < Pow2(63) ==>
              oks[i]
    ensures forall i :: && 0 <= i < |ops| && ops[i].OpPut?
                        && ValueAfter(ops, oks, i, m.eq, ops[i].key, Get(old(m.Entries()), m.eq, ops[i].key)).Some?
                        ==> oks[i]
  {
    hide Get, Effect, ValueAfter, HMap.Valid, SizeStep, Pow2;
    ghost var was := m.Entries();
    oks, answers, sizes := [], [], [m.len];
    forall q ensures Get(was, m.eq, q) == ValueAfter(ops, [], 0, m.eq, q, Get(was, m.eq, q)) {
      NoneDone(ops, m.eq, q, Get(was, m.eq, q));
    }
    var i := 0;
    while i < |ops|
      invariant i <= |ops| && |oks| == |answers| == i && m.Valid() && fresh(m.nodes - old(m.nodes))
      invariant m.buckets == old(m.buckets) || fresh(m.buckets)
      invariant |sizes| == i + 1 && sizes[0] == old(m.len) && sizes[i] == m.len
      invariant forall q :: Get(m.Entries(), m.eq, q) == ValueAfter(ops, oks, i, m.eq, q, Get(was, m.eq, q))
      invariant forall j :: 0 <= j < i && ops[j].OpLookup? ==>
                  answers[j] == ValueAfter(ops, oks, j, m.eq, ops[j].key, Get(was, m.eq, ops[j].key))
      invariant forall j :: 0 <= j < i ==> SizeStep(ops[j], sizes[j], sizes[j + 1])
      invariant forall j :: 0 <= j < i && ops[j].OpPut? && ops[j].room && ops[j].granted && sizes[j] < Pow2(63) ==>
                  oks[j]
      invariant forall j :: && 0 <= j < i && ops[j].OpPut?
                            && ValueAfter(ops, oks, j, m.eq, ops[j].key, Get(was, m.eq, ops[j].key)).Some?
                            ==> oks[j]
    {
      var ok, answer := Do(m, ops[i]);
      forall q, n | 0 <= n <= i ensures ValueAfter(ops, oks + [ok], n, m.eq, q, Get(was, m.eq, q))
                                         == ValueAfter(ops, oks, n, m.eq, q, Get(was, m.eq, q)) {
        SameSoFar(ops, oks, ok, n, m.eq, q, Get(was, m.eq, q));
      }
      forall q ensures ValueAfter(ops, oks + [ok], i + 1, m.eq, q, Get(was, m.eq, q))
                       == Effect(ops[i], ok, m.eq, q, ValueAfter(ops, oks, i, m.eq, q, Get(was, m.eq, q))) {
        OneDone(ops, oks, ok, m.eq, q, Get(was, m.eq, q));
      }
      oks, answers, i := oks + [ok], answers + [answer], i + 1;
      sizes := sizes + [m.len];
    }
  }

  /** An operation about other keys changes nothing for this one. */
  lemma {:induction false} UntouchedStays<K, V>(ops: seq<MapOp<K, V>>, oks: seq<bool>, i: nat, n: nat,
                                                eq: (K, K) -> bool, q: K, before: Option<V>)
    requires i <= n <= |ops| && n <= |oks| && forall j :: i <= j < n ==> !Touches(ops[j], eq, q)
    ensures ValueAfter(ops, oks, n, eq, q, before) == ValueAfter(ops, oks, i, eq, q, before)
    decreases n
  {
    if i < n {
      UntouchedStays(ops, oks, i, n - 1, eq, q, before);
    }
  }

  /** The last operation about a key has the last word: its value, or none. */
  lemma LastWord<K, V>(ops: seq<MapOp<K, V>>, oks: seq<bool>, i: nat, n: nat, eq: (K, K) -> bool, q: K,
                       before: Option<V>)
    requires i < n <= |ops| && n <= |oks| && Touches(ops[i], eq, q) && (ops[i].OpPut? ==> oks[i])
    requires forall j :: i < j < n ==> !Touches(ops[j], eq, q)
    ensures ValueAfter(ops, oks, n, eq, q, before) == if ops[i].OpPut? then Some(ops[i].val) else None
  {
    UntouchedStays(ops, oks, i + 1, n, eq, q, before);
  }

  /** In a run: once put with memory granted, a value is what lookups of equal keys give until the key is touched. */
  method PutThenLookup<K(!new), V>(m: HMap<K, V>, ops: seq<MapOp<K, V>>) returns (answers: seq<Option<V>>)
    requires m.Valid() && m.len + |ops| <= Pow2(63)
    modifies m, m.buckets, m.nodes
    ensures m.Valid() && |answers| == |ops|
    ensures forall i, j :: && 0 <= i < j < |ops| && ops[i].OpPut? && ops[i].room && ops[i].granted && ops[j].OpLookup?
                           && m.eq(ops[i].key, ops[j].key)
                           && (forall k :: i < k < j ==> !Touches(ops[k], m.eq, ops[j].key))
                           ==> answers[j] == Some(ops[i].val)
  {
    hide Get, Effect, ValueAfter, HMap.Valid, Pow2;
    ghost var was := m.Entries();
    var oks;
    ghost var sizes;
    oks, answers, sizes := RunMap(m, ops);
    forall i, j | && 0 <= i < j < |ops| && ops[i].OpPut? && ops[i].room && ops[i].granted && ops[j].OpLookup?
                  && m.eq(ops[i].key, ops[j].key)
                  && (forall k :: i < k < j ==> !Touches(ops[k], m.eq, ops[j].key))
      ensures answers[j] == Some(ops[i].val)
    {
      SizesGrow(ops, sizes, i);
      LastWord(ops, oks, i, j, m.eq, ops[j].key, Get(was, m.eq, ops[j].key));
    }
  }

  lemma {:induction false} SizesGrow<K, V>(ops: seq<MapOp<K, V>>, sizes: seq<nat>, n: nat)
    requires n < |sizes| == |ops| + 1 && forall i :: 0 <= i < |ops| ==> SizeStep(ops[i], sizes[i], sizes[i + 1])
    ensures sizes[n] <= sizes[0] + n
  {
    if n > 0 {
      SizesGrow(ops, sizes, n - 1);
      assert SizeStep(ops[n - 1], sizes[n - 1], sizes[n - 1 + 1]);
    }
  }

  lemma NoneDone<K, V>(ops: seq<MapOp<K, V>>, eq: (K, K) -> bool, q: K, before: Option<V>)
    ensures ValueAfter(ops, [], 0, eq, q, before) == before
  {
  }

  lemma {:induction false} SameSoFar<K, V>(ops: seq<MapOp<K, V>>, oks: seq<bool>, ok: bool, n: nat, eq: (K, K) -> bool,
                                           q: K, before: Option<V>)
    requires n <= |oks| && n <= |ops|
    ensures ValueAfter(ops, oks + [ok], n, eq, q, before) == ValueAfter(ops, oks, n, eq, q, before)
  {
    if n > 0 {
      SameSoFar(ops, oks, ok, n - 1, eq, q, before);
    }
  }

  lemma OneDone<K, V>(ops: seq<MapOp<K, V>>, oks: seq<bool>, ok: bool, eq: (K, K) -> bool, q: K, before: Option<V>)
    requires |oks| < |ops|
    ensures ValueAfter(ops, oks + [ok], |oks| + 1, eq, q, before)
            == Effect(ops[|oks|], ok, eq, q, ValueAfter(ops, oks, |oks|, eq, q, before))
  {
    SameSoFar(ops, oks, ok, |oks|, eq, q, before);
  }

  // ----- comparing by one pass

  predicate Agree<V>(x: Option<V>, y: Option<V>, agree: (V, V) -> bool) {
    match (x, y)
    case (None, None) => true
    case (Some(a), Some(b)) => agree(a, b)
    case _ => false
  }

  lemma OnlyOne<K(!new), V>(nodes: set<Node<K, V>>, eq: (K, K) -> bool, hash: K -> nat, q: K)
    requires Lawful(eq, hash) && Keyed(nodes, eq, hash)
    ensures forall n, m :: n in nodes && m in nodes && eq(n.key, q) && eq(m.key, q) ==> n == m
  {
    forall n, m | n in nodes && m in nodes && eq(n.key, q) && eq(m.key, q) ensures n == m {
      assert eq(q, m.key) && eq(n.key, m.key);
    }
  }

  lemma AllVisited<K, V>(w: seq<Node<K, V>>, nodes: set<Node<K, V>>)
    requires Elems(w) == nodes
    ensures forall n :: n in nodes ==> n in w
  {
  }

  /** The nodes of t whose keys some node of s holds too. */
  ghost function Partners<K, V>(s: set<Node<K, V>>, t: set<Node<K, V>>, eq: (K, K) -> bool): set<Node<K, V>> {
    set m | m in t && Has(s, eq, m.key)
  }

  /** Distinct keys have distinct partners. */
  lemma {:induction false} PartnersCount<K(!new), V>(s: set<Node<K, V>>, t: set<Node<K, V>>, eq: (K, K) -> bool,
                                                     hash: K -> nat)
    requires Lawful(eq, hash) && Keyed(s, eq, hash) && forall n :: n in s ==> Has(t, eq, n.key)
    ensures |s| <= |Partners(s, t, eq)| <= |t|
    decreases s
  {
    hide Lawful, Keyed, Partners, Has;
    PartnersWithin(s, t, eq);
    if s != {} {
      var n :| n in s;
      var rest := s - {n};
      KeyedWithout(s, eq, hash, n);
      PartnersCount(rest, t, eq, hash);
      var m := PartnerOf(t, eq, n.key);
      OnePartnerMore(s, t, eq, hash, n, m);
      SubsetCount(Partners(rest, t, eq) + {m}, Partners(s, t, eq));
    }
  }

  lemma PartnersWithin<K, V>(s: set<Node<K, V>>, t: set<Node<K, V>>, eq: (K, K) -> bool)
    ensures |Partners(s, t, eq)| <= |t|
  {
    SubsetCount(Partners(s, t, eq), t);
  }

  lemma KeyedWithout<K, V>(s: set<Node<K, V>>, eq: (K, K) -> bool, hash: K -> nat, n: Node<K, V>)
    requires Keyed(s, eq, hash)
    ensures Keyed(s - {n}, eq, hash)
  {
  }

  lemma PartnerOf<K, V>(t: set<Node<K, V>>, eq: (K, K) -> bool, q: K) returns (m: Node<K, V>)
    requires Has(t, eq, q)
    ensures m in t && eq(m.key, q)
  {
    m :| m in t && eq(m.key, q);
  }

  lemma OnePartnerMore<K(!new), V>(s: set<Node<K, V>>, t: set<Node<K, V>>, eq: (K, K) -> bool, hash: K -> nat,
                                   n: Node<K, V>, m: Node<K, V>)
    requires Lawful(eq, hash) && Keyed(s, eq, hash) && n in s && m in t && eq(m.key, n.key)
    ensures m !in Partners(s - {n}, t, eq) && Partners(s - {n}, t, eq) + {m} <= Partners(s, t, eq)
  {
    hide Lawful;
    var rest := s - {n};
    Symmetric(eq, hash, m.key, n.key);
    forall o | o in rest ensures !eq(o.key, m.key) {
      Transitive(eq, hash, o.key, m.key, n.key);
    }
    forall x | x in Partners(rest, t, eq) ensures x in Partners(s, t, eq) {
      var o :| o in rest && eq(o.key, x.key);
      assert o in s;
    }
  }

  predicate Answers<K, V>(a: map<Node<K, V>, V>, b: map<Node<K, V>, V>, eq: (K, K) -> bool, agree: (V, V) -> bool,
                          n: Node<K, V>)
    requires n in a
  {
    exists m :: m in b && eq(m.key, n.key) && agree(a[n], b[m])
  }

  ghost predicate SameMap<K(!new), V>(a: map<Node<K, V>, V>, b: map<Node<K, V>, V>, eq: (K, K) -> bool,
                                      agree: (V, V) -> bool) {
    forall q :: Agree(Get(a, eq, q), Get(b, eq, q), agree)
  }

  /** Maps of one size are the same exactly when every entry of one is answered by the other; else they differ. */
  lemma SameByPass<K(!new), V>(a: map<Node<K, V>, V>, b: map<Node<K, V>, V>, eq: (K, K) -> bool, ha: K -> nat,
                               hb: K -> nat, agree: (V, V) -> bool)
    requires Lawful(eq, ha) && Lawful(eq, hb) && Keyed(a.Keys, eq, ha) && Keyed(b.Keys, eq, hb)
    ensures SameMap(a, b, eq, agree) <==> |a.Keys| == |b.Keys| && forall n :: n in a ==> Answers(a, b, eq, agree, n)
  {
    hide Lawful, Keyed, Get;
    if SameMap(a, b, eq, agree) {
      SameAnswers(a, b, eq, ha, hb, agree);
    }
    if |a.Keys| == |b.Keys| && forall n :: n in a ==> Answers(a, b, eq, agree, n) {
      forall q ensures Agree(Get(a, eq, q), Get(b, eq, q), agree) {
        AnsweredAt(a, b, eq, ha, hb, agree, q);
      }
    }
  }

  lemma SameAnswers<K(!new), V>(a: map<Node<K, V>, V>, b: map<Node<K, V>, V>, eq: (K, K) -> bool, ha: K -> nat,
                                hb: K -> nat, agree: (V, V) -> bool)
    requires Lawful(eq, ha) && Lawful(eq, hb) && Keyed(a.Keys, eq, ha) && Keyed(b.Keys, eq, hb)
             && SameMap(a, b, eq, agree)
    ensures |a.Keys| == |b.Keys| && forall n :: n in a ==> Answers(a, b, eq, agree, n)
  {
    hide Lawful, Keyed, Get, Has, Answers, SameMap;
    forall n | n in a ensures Answers(a, b, eq, agree, n) && Has(b.Keys, eq, n.key) {
      OneSide(a, b, eq, ha, agree, n);
    }
    forall m | m in b ensures Has(a.Keys, eq, m.key) {
      OtherSide(a, b, eq, hb, agree, m);
    }
    PartnersCount(a.Keys, b.Keys, eq, ha);
    PartnersCount(b.Keys, a.Keys, eq, hb);
  }

  lemma OneSide<K(!new), V>(a: map<Node<K, V>, V>, b: map<Node<K, V>, V>, eq: (K, K) -> bool, ha: K -> nat,
                            agree: (V, V) -> bool, n: Node<K, V>)
    requires Lawful(eq, ha) && Keyed(a.Keys, eq, ha) && SameMap(a, b, eq, agree) && n in a
    ensures Answers(a, b, eq, agree, n) && Has(b.Keys, eq, n.key)
  {
    hide Lawful;
    Reflexive(eq, ha, n.key);
    GetIs(a, eq, ha, n, n.key);
    assert Agree(Get(a, eq, n.key), Get(b, eq, n.key), agree);
  }

  lemma OtherSide<K(!new), V>(a: map<Node<K, V>, V>, b: map<Node<K, V>, V>, eq: (K, K) -> bool, hb: K -> nat,
                              agree: (V, V) -> bool, m: Node<K, V>)
    requires Lawful(eq, hb) && Keyed(b.Keys, eq, hb) && SameMap(a, b, eq, agree) && m in b
    ensures Has(a.Keys, eq, m.key)
  {
    hide Lawful;
    Reflexive(eq, hb, m.key);
    GetIs(b, eq, hb, m, m.key);
    assert Agree(Get(a, eq, m.key), Get(b, eq, m.key), agree);
  }

  lemma AnsweredAt<K(!new), V>(a: map<Node<K, V>, V>, b: map<Node<K, V>, V>, eq: (K, K) -> bool, ha: K -> nat,
                               hb: K -> nat, agree: (V, V) -> bool, q: K)
    requires Lawful(eq, ha) && Lawful(eq, hb) && Keyed(a.Keys, eq, ha) && Keyed(b.Keys, eq, hb)
    requires |a.Keys| == |b.Keys| && forall n :: n in a ==> Answers(a, b, eq, agree, n)
    ensures Agree(Get(a, eq, q), Get(b, eq, q), agree)
  {
    hide Lawful, Keyed, Get, Answers;
    if Has(a.Keys, eq, q) {
      var n := PartnerOf(a.Keys, eq, q);
      AnsweredFor(a, b, eq, ha, hb, agree, n, q);
    } else {
      Covered(a, b, eq, ha, agree);
      forall m | m in b ensures !eq(m.key, q) {
        var n := PartnerOf(a.Keys, eq, m.key);
        Transitive(eq, ha, n.key, m.key, q);
      }
      GetNone(a, eq, q);
      GetNone(b, eq, q);
    }
  }

  lemma GetNone<K, V>(entries: map<Node<K, V>, V>, eq: (K, K) -> bool, q: K)
    requires forall n :: n in entries ==> !eq(n.key, q)
    ensures Get(entries, eq, q) == None
  {
  }

  lemma AnsweredFor<K(!new), V>(a: map<Node<K, V>, V>, b: map<Node<K, V>, V>, eq: (K, K) -> bool, ha: K -> nat,
                                hb: K -> nat, agree: (V, V) -> bool, n: Node<K, V>, q: K)
    requires Lawful(eq, ha) && Lawful(eq, hb) && Keyed(a.Keys, eq, ha) && Keyed(b.Keys, eq, hb)
    requires n in a && eq(n.key, q) && Answers(a, b, eq, agree, n)
    ensures Agree(Get(a, eq, q), Get(b, eq, q), agree)
  {
    hide Lawful, Get;
    var m :| m in b && eq(m.key, n.key) && agree(a[n], b[m]);
    Transitive(eq, hb, m.key, n.key, q);
    GetIs(a, eq, ha, n, q);
    GetIs(b, eq, hb, m, q);
  }

  lemma Covered<K(!new), V>(a: map<Node<K, V>, V>, b: map<Node<K, V>, V>, eq: (K, K) -> bool, ha: K -> nat,
                            agree: (V, V) -> bool)
    requires Lawful(eq, ha) && Keyed(a.Keys, eq, ha) && |a.Keys| == |b.Keys|
    requires forall n :: n in a ==> Answers(a, b, eq, agree, n)
    ensures forall m :: m in b ==> Has(a.Keys, eq, m.key)
  {
    hide Lawful, Keyed;
    forall n | n in a.Keys ensures Has(b.Keys, eq, n.key) {
      assert Answers(a, b, eq, agree, n);
    }
    PartnersCount(a.Keys, b.Keys, eq, ha);
    SubsetCount(Partners(a.Keys, b.Keys, eq), b.Keys);
    forall m | m in b ensures Has(a.Keys, eq, m.key) {
      assert m in Partners(a.Keys, b.Keys, eq);
    }
  }

  lemma Sym<K(!new)>(eq: (K, K) -> bool, hash: K -> nat, q: K)
    requires Lawful(eq, hash)
    ensures forall x :: eq(x, q) ==> eq(q, x)
  {
  }

  lemma InBucket<K, V>(chains: seq<seq<Node<K, V>>>, nodes: set<Node<K, V>>, i: nat, k: nat)
    requires Bucketed(chains, nodes) && i < |chains| && k < |chains[i]|
    ensures IsCount(|chains|) && BucketIn(chains[i][k].hash, |chains|) == i && chains[i][k] in nodes
  {
  }

  lemma AllOf<K, V>(chains: seq<seq<Node<K, V>>>, nodes: set<Node<K, V>>, i: nat)
    requires Bucketed(chains, nodes) && i < |chains|
    ensures IsCount(|chains|)
    ensures forall n :: n in nodes && BucketIn(n.hash, |chains|) == i ==> n in chains[i]
  {
  }

  // ----- the order of a walk

  /** The first n chains laid end to end; all of them are what a walk visits. */
  ghost function Laid<K, V>(chains: seq<seq<Node<K, V>>>, n: nat): seq<Node<K, V>>
    requires n <= |chains|
  {
    if n == 0 then [] else Laid(chains, n - 1) + chains[n - 1]
  }

  ghost function WalkOrder<K, V>(chains: seq<seq<Node<K, V>>>): seq<Node<K, V>> {
    Laid(chains, |chains|)
  }

  lemma NoneLaid<K, V>(chains: seq<seq<Node<K, V>>>)
    ensures Laid(chains, 0) == []
  {
  }

  /** Where a chain stands in the walk. */
  lemma LaidHere<K, V>(chains: seq<seq<Node<K, V>>>, i: nat)
    requires i < |chains|
    ensures var w, t := WalkOrder(chains), |Laid(chains, i)|;
            && t + |chains[i]| == |Laid(chains, i + 1)| <= |w|
            && forall k :: 0 <= k < |chains[i]| ==> chains[i][k] == w[t + k]
  {
    LaidStep(chains, i);
    LaidGrows(chains, i + 1, |chains|);
    forall k | 0 <= k < |chains[i]| ensures chains[i][k] == WalkOrder(chains)[|Laid(chains, i)| + k] {
      LaidAt(chains, |chains|, i, k);
    }
  }

  lemma LaidStep<K, V>(chains: seq<seq<Node<K, V>>>, n: nat)
    requires n < |chains|
    ensures |Laid(chains, n + 1)| == |Laid(chains, n)| + |chains[n]|
  {
  }

  lemma {:induction false} LaidAt<K, V>(chains: seq<seq<Node<K, V>>>, n: nat, i: nat, k: nat)
    requires i < n <= |chains| && k < |chains[i]|
    ensures |Laid(chains, i)| + k < |Laid(chains, n)| && Laid(chains, n)[|Laid(chains, i)| + k] == chains[i][k]
    decreases n
  {
    if i < n - 1 {
      LaidAt(chains, n - 1, i, k);
    }
  }

  lemma {:induction false} LaidGrows<K, V>(chains: seq<seq<Node<K, V>>>, i: nat, n: nat)
    requires i <= n <= |chains|
    ensures |Laid(chains, i)| <= |Laid(chains, n)|
    ensures (forall j :: i <= j < n ==> chains[j] == []) ==> |Laid(chains, i)| == |Laid(chains, n)|
    decreases n
  {
    if i < n {
      LaidGrows(chains, i, n - 1);
    }
  }

  /** A walk visits every node once. */
  lemma {:induction false} LaidOnce<K, V>(chains: seq<seq<Node<K, V>>>, nodes: set<Node<K, V>>, n: nat)
    requires n <= |chains| && Bucketed(chains, nodes)
    ensures Distinct(Laid(chains, n)) && Elems(Laid(chains, n)) == Firsts(chains, n)
    ensures |Laid(chains, n)| == |Firsts(chains, n)|
  {
    hide Bucketed, Distinct, Elems;
    if n > 0 {
      LaidOnce(chains, nodes, n - 1);
      ChainsApart(chains, nodes, n - 1);
      ElemsJoin(Laid(chains, n - 1), chains[n - 1]);
    } else {
      NoElems<K, V>();
    }
    ElemsSize(Laid(chains, n));
  }

  lemma NoElems<K, V>()
    ensures Distinct<Node<K, V>>([]) && Elems<K, V>([]) == {}
  {
  }

  lemma ElemsJoin<K, V>(a: seq<Node<K, V>>, b: seq<Node<K, V>>)
    requires Distinct(a) && Distinct(b) && forall k :: 0 <= k < |b| ==> b[k] !in Elems(a)
    ensures Distinct(a + b) && Elems(a + b) == Elems(a) + Elems(b)
  {
  }

  lemma LastElem<K, V>(s: seq<Node<K, V>>)
    requires s != [] && Distinct(s)
    ensures Distinct(s[..|s| - 1]) && |Elems(s)| == |Elems(s[..|s| - 1])| + 1
  {
    var front, x := s[..|s| - 1], s[|s| - 1];
    assert Elems(s) == Elems(front) + {x} by {
      assert s == front + [x];
    }
    assert x !in Elems(front);
  }

  lemma {:induction false} ElemsSize<K, V>(s: seq<Node<K, V>>)
    requires Distinct(s)
    ensures |Elems(s)| == |s|
  {
    hide Distinct, Elems;
    if s == [] {
      NoElems<K, V>();
    } else {
      LastElem(s);
      ElemsSize(s[..|s| - 1]);
    }
  }

  lemma WalkIsOnce<K, V>(chains: seq<seq<Node<K, V>>>, nodes: set<Node<K, V>>)
    requires Bucketed(chains, nodes)
    ensures Distinct(WalkOrder(chains)) && Elems(WalkOrder(chains)) == nodes && |WalkOrder(chains)| == |nodes|
    ensures forall k :: 0 <= k < |WalkOrder(chains)| ==> WalkOrder(chains)[k] in nodes
  {
    hide BucketIn, IsCount;
    LaidOnce(chains, nodes, |chains|);
    AllFirst(chains, nodes);
  }

  /** The t-th node of a walk is in its bucket's chain, as far down as t is past the chains before. */
  lemma Placed<K, V>(chains: seq<seq<Node<K, V>>>, nodes: set<Node<K, V>>, t: nat)
    requires Bucketed(chains, nodes) && t < |WalkOrder(chains)|
    ensures IsCount(|chains|) && |chains| > 0
    ensures var n := WalkOrder(chains)[t]; var b := BucketIn(n.hash, |chains|);
            n in nodes && exists k :: 0 <= k < |chains[b]| && chains[b][k] == n && t == |Laid(chains, b)| + k
  {
    hide BucketIn, IsCount, Laid;
    WalkIsOnce(chains, nodes);
    var n := WalkOrder(chains)[t];
    assert n in nodes;
    var b := BucketIn(n.hash, |chains|);
    var k :| 0 <= k < |chains[b]| && chains[b][k] == n;
    LaidAt(chains, |chains|, b, k);
  }

  lemma Emptied<K, V>(nodes: set<Node<K, V>>)
    requires |nodes| == 0
    ensures nodes == {} && Threaded<K, V>([], [], {}) && Bucketed<K, V>([], {})
  {
  }

  lemma SameFor<K(!new)>(eq: (K, K) -> bool, hash: K -> nat, x: K, y: K, q: K)
    requires Lawful(eq, hash) && eq(x, y)
    ensures eq(x, q) == eq(y, q)
  {
    hide Lawful;
    Symmetric(eq, hash, x, y);
    Transitive(eq, hash, x, y, q);
    Transitive(eq, hash, y, x, q);
  }

  lemma NotFound<K(!new), V>(entries: map<Node<K, V>, V>, eq: (K, K) -> bool, hash: K -> nat, key: K, q: K)
    requires Lawful(eq, hash) && !Has(entries.Keys, eq, key)
    ensures eq(key, q) ==> Get(entries, eq, q) == None
  {
    hide Lawful;
    if eq(key, q) {
      forall n | n in entries ensures !eq(n.key, q) {
        Symmetric(eq, hash, key, q);
        Transitive(eq, hash, n.key, q, key);
      }
      GetNone(entries, eq, q);
    }
  }

  lemma KeyedWith<K(!new), V>(nodes: set<Node<K, V>>, eq: (K, K) -> bool, hash: K -> nat, node: Node<K, V>)
    requires Lawful(eq, hash) && Keyed(nodes, eq, hash) && node.hash == hash(node.key)
    requires forall n :: n in nodes ==> !eq(n.key, node.key)
    ensures Keyed(nodes + {node}, eq, hash) && node !in nodes
  {
    assert eq(node.key, node.key);
    forall n | n in nodes ensures !eq(node.key, n.key) {
    }
  }

  lemma Head<K, V>(heads: seq<Node?<K, V>>, chains: seq<seq<Node<K, V>>>, nodes: set<Node<K, V>>, b: nat)
    requires Threaded(heads, chains, nodes) && b < |chains|
    ensures |heads| == |chains| && heads[b] == At(chains[b], 0)
  {
  }

  lemma Step<K, V>(heads: seq<Node?<K, V>>, chains: seq<seq<Node<K, V>>>, nodes: set<Node<K, V>>, b: nat, k: nat)
    requires Threaded(heads, chains, nodes) && b < |chains| && k < |chains[b]|
    ensures chains[b][k] in nodes && chains[b][k].next == At(chains[b], k + 1)
  {
  }

  lemma OwnHash<K(!new), V>(nodes: set<Node<K, V>>, eq: (K, K) -> bool, hash: K -> nat, n: Node<K, V>, key: K)
    requires Lawful(eq, hash) && Keyed(nodes, eq, hash) && n in nodes
    ensures eq(n.key, key) ==> n.hash == hash(key)
  {
  }
}
