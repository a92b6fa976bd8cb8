/** src/ds/hset.c: a set as a map of keys with nothing behind them, and the operations between two sets. */
module HashSets {
  import opened Core
  import opened Ring
  import opened HashMaps

  type HSet<!K(!new)> = HMap<K, ()>

  /** One of the first t nodes of a walk has the key. */
  predicate Seen<K>(w: seq<Node<K, ()>>, t: nat, eq: (K, K) -> bool, q: K)
    requires t <= |w|
  {
    exists k :: 0 <= k < t && eq(w[k].key, q)
  }

  lemma SeenStep<K>(w: seq<Node<K, ()>>, t: nat, eq: (K, K) -> bool, q: K)
    requires t < |w|
    ensures Seen(w, t + 1, eq, q) <==> Seen(w, t, eq, q) || eq(w[t].key, q)
  {
  }

  lemma SeenAll<K>(w: seq<Node<K, ()>>, nodes: set<Node<K, ()>>, eq: (K, K) -> bool, q: K)
    requires Elems(w) == nodes
    ensures Seen(w, |w|, eq, q) <==> Has(nodes, eq, q)
  {
    if Has(nodes, eq, q) {
      var n :| n in nodes && eq(n.key, q);
      assert n in w;
    }
    if Seen(w, |w|, eq, q) {
      var k :| 0 <= k < |w| && eq(w[k].key, q);
      assert w[k] in Elems(w);
    }
  }

  lemma HasWith<K(!new)>(nodes: set<Node<K, ()>>, at: Node<K, ()>, eq: (K, K) -> bool, hash: K -> nat, key: K, q: K)
    requires Lawful(eq, hash) && eq(at.key, key)
    ensures Has(nodes + {at}, eq, q) <==> Has(nodes, eq, q) || eq(key, q)
  {
    hide Lawful;
    Transitive(eq, hash, at.key, key, q);
    Symmetric(eq, hash, at.key, key);
    Transitive(eq, hash, key, at.key, q);
    if Has(nodes, eq, q) {
      var n :| n in nodes && eq(n.key, q);
      assert n in nodes + {at};
    }
    assert at in nodes + {at};
  }

  lemma HasWithout<K(!new)>(nodes: set<Node<K, ()>>, at: Node<K, ()>, eq: (K, K) -> bool, hash: K -> nat, key: K, q: K)
    requires Lawful(eq, hash) && Keyed(nodes, eq, hash) && at in nodes && eq(at.key, key)
    ensures Has(nodes - {at}, eq, q) <==> Has(nodes, eq, q) && !eq(key, q)
  {
    hide Lawful;
    Transitive(eq, hash, at.key, key, q);
    Symmetric(eq, hash, at.key, key);
    Transitive(eq, hash, key, at.key, q);
    forall n | n in nodes && eq(n.key, q) ensures n == at <==> eq(key, q) {
      Symmetric(eq, hash, key, q);
      Transitive(eq, hash, n.key, q, key);
      Transitive(eq, hash, n.key, key, at.key);
    }
  }

  /** Adds one key to `self`, off the back of a walk of `other`. */
  method PutKey<K(!new)>(self: HSet<K>, other: HSet<K>, key: K, room: bool, granted: bool) returns (status: Status)
    requires self.Valid() && self.Apart(other)
    modifies self, self.buckets, self.nodes
    ensures self.Valid() && self.Apart(other)
    ensures fresh(self.nodes - old(self.nodes)) && (self.buckets == old(self.buckets) || fresh(self.buckets))
    ensures status == NoMem ==> self.nodes == old(self.nodes)
    ensures status == NoMem ==> !Has(old(self.nodes), self.eq, key) && !(room && granted && old(self.len) < Pow2(63))
    ensures old(self.len) <= self.len <= old(self.len) + 1
    ensures status == Ok ==>
              forall q :: Has(self.nodes, self.eq, q) <==> Has(old(self.nodes), self.eq, q) || self.eq(key, q)
  {
    hide Lawful, Keyed, Threaded, Bucketed, Has;
    ghost var was := self.nodes;
    var isNew;
    ghost var at;
    status, isNew, at := self.Insert(key, (), room, granted);
    if status == Ok {
      forall q ensures Has(self.nodes, self.eq, q) <==> Has(was, self.eq, q) || self.eq(key, q) {
        HasWith(was, at, self.eq, self.hash, key, q);
      }
    }
  }

  /** Takes one key out of `self`. */
  method DropKey<K(!new)>(self: HSet<K>, other: HSet<K>, key: K) returns (removed: bool)
    requires self.Valid() && self.Apart(other)
    modifies self`len, self`chains, self`nodes, self.buckets, self.nodes
    ensures self.Valid() && self.Apart(other) && self.nodes <= old(self.nodes)
    ensures removed == Has(old(self.nodes), self.eq, key) && self.len == old(self.len) - if removed then 1 else 0
    ensures forall q :: Has(self.nodes, self.eq, q) <==> Has(old(self.nodes), self.eq, q) && !self.eq(key, q)
  {
    hide Lawful, Keyed, Threaded, Bucketed;
    ghost var was := self.nodes;
    ghost var at;
    removed, at := self.Remove(key);
    forall q ensures Has(self.nodes, self.eq, q) <==> Has(was, self.eq, q) && !self.eq(key, q) {
      if removed {
        HasWithout(was, at, self.eq, self.hash, key, q);
      } else {
        HasNot(was, self.eq, self.hash, key, q);
      }
    }
  }

  lemma HasNot<K(!new)>(nodes: set<Node<K, ()>>, eq: (K, K) -> bool, hash: K -> nat, key: K, q: K)
    requires Lawful(eq, hash) && !Has(nodes, eq, key)
    ensures Has(nodes, eq, q) ==> !eq(key, q)
  {
    hide Lawful;
    forall n | n in nodes && eq(n.key, q) ensures !eq(key, q) {
      Symmetric(eq, hash, key, q);
      Transitive(eq, hash, n.key, q, key);
    }
  }

  // ----- a walk of the other set

  ghost predicate IsWalk<K>(w: seq<Node<K, ()>>, nodes: set<Node<K, ()>>) {
    Elems(w) == nodes && forall k :: 0 <= k < |w| ==> w[k] in nodes
  }

  method FirstOf<K(!new)>(s: HSet<K>) returns (node: Node?<K, ()>)
    requires s.Valid()
    ensures node == At(WalkOrder(s.chains), 0) && IsWalk(WalkOrder(s.chains), s.nodes) && Distinct(WalkOrder(s.chains))
  {
    hide Lawful, Keyed, Threaded, Bucketed, Distinct, Elems;
    WalkIsOnce(s.chains, s.nodes);
    assert Laid(s.chains, 0) == [];
    node := s.FirstFrom(0);
  }

  lemma NoneSeen<K(!new)>(w: seq<Node<K, ()>>, eq: (K, K) -> bool)
    ensures forall q :: !Seen(w, 0, eq, q)
  {
  }

  lemma OneMoreSeen<K(!new)>(w: seq<Node<K, ()>>, t: nat, eq: (K, K) -> bool)
    requires t < |w|
    ensures forall q :: Seen(w, t + 1, eq, q) <==> Seen(w, t, eq, q) || eq(w[t].key, q)
  {
    forall q ensures Seen(w, t + 1, eq, q) <==> Seen(w, t, eq, q) || eq(w[t].key, q) {
      SeenStep(w, t, eq, q);
    }
  }

  /** What a walk has seen is in the set, and a whole walk sees all of it. */
  lemma SeenAreTheirs<K(!new)>(w: seq<Node<K, ()>>, t: nat, nodes: set<Node<K, ()>>, eq: (K, K) -> bool)
    requires t <= |w| && IsWalk(w, nodes)
    ensures forall q :: Seen(w, t, eq, q) ==> Has(nodes, eq, q)
    ensures t == |w| ==> forall q :: Has(nodes, eq, q) ==> Seen(w, t, eq, q)
  {
    forall q ensures Seen(w, t, eq, q) ==> Has(nodes, eq, q)
      ensures t == |w| && Has(nodes, eq, q) ==> Seen(w, t, eq, q)
    {
      SeenAll(w, nodes, eq, q);
    }
  }

  /** A set and another one walked while it changes; w is the walk. */
  ghost predicate Walked<K(!new)>(self: HSet<K>, other: HSet<K>, w: seq<Node<K, ()>>)
    reads self, self.buckets, self.nodes, other, other.buckets, other.nodes
  {
    self.Valid() && self.Apart(other) && w == WalkOrder(other.chains) && IsWalk(w, other.nodes) && Distinct(w)
  }

  /** What the walk of the other set does with each of its keys. */
  datatype Mode = Add | Drop | Flip
  {
    function Mixes(mine: bool, theirs: bool): bool {
      match this
      case Add => mine || theirs
      case Drop => mine && !theirs
      case Flip => mine != theirs
    }
  }

  /** The first t keys of the walk have been added, dropped or flipped, and no other. */
  ghost predicate Mixed<K(!new)>(now: set<Node<K, ()>>, was: set<Node<K, ()>>, w: seq<Node<K, ()>>, t: nat,
                                 eq: (K, K) -> bool, mode: Mode)
    requires t <= |w|
  {
    forall q :: Has(now, eq, q) == mode.Mixes(Has(was, eq, q), Seen(w, t, eq, q))
  }

  /** Keys of one set are distinct, so none comes up twice in a walk of it. */
  lemma NoneTwice<K(!new)>(w: seq<Node<K, ()>>, t: nat, nodes: set<Node<K, ()>>, eq: (K, K) -> bool, hash: K -> nat)
    requires t < |w| && IsWalk(w, nodes) && Distinct(w) && Lawful(eq, hash) && Keyed(nodes, eq, hash)
    ensures forall q :: eq(w[t].key, q) ==> !Seen(w, t, eq, q)
  {
    hide Lawful;
    forall q, k | 0 <= k < t && eq(w[t].key, q) ensures !eq(w[k].key, q) {
      Symmetric(eq, hash, w[t].key, q);
      Transitive(eq, hash, w[k].key, q, w[t].key);
      assert w[k] in nodes && w[t] in nodes;
    }
  }

  lemma HasAlike<K(!new)>(nodes: set<Node<K, ()>>, eq: (K, K) -> bool, hash: K -> nat, key: K)
    requires Lawful(eq, hash)
    ensures forall q :: eq(key, q) ==> (Has(nodes, eq, key) <==> Has(nodes, eq, q))
  {
    hide Lawful;
    forall q | eq(key, q) ensures Has(nodes, eq, key) <==> Has(nodes, eq, q) {
      Symmetric(eq, hash, key, q);
      forall n | n in nodes ensures eq(n.key, key) <==> eq(n.key, q) {
        Transitive(eq, hash, n.key, key, q);
        Transitive(eq, hash, n.key, q, key);
      }
    }
  }

  lemma StepMixes<K(!new)>(before: set<Node<K, ()>>, now: set<Node<K, ()>>, was: set<Node<K, ()>>, w: seq<Node<K, ()>>,
                           t: nat,
                           eq: (K, K) -> bool, hash: K -> nat, theirs: set<Node<K, ()>>, hashes: K -> nat, mode: Mode)
    requires t < |w| && Mixed(before, was, w, t, eq, mode) && Lawful(eq, hash) && Lawful(eq, hashes)
    requires IsWalk(w, theirs) && Distinct(w) && Keyed(theirs, eq, hashes)
    requires forall q :: Has(now, eq, q)
                         == if eq(w[t].key, q) then mode.Add? || (mode.Flip? && !Has(before, eq, w[t].key))
                            else Has(before, eq, q)
    ensures Mixed(now, was, w, t + 1, eq, mode)
  {
    hide Lawful, Keyed, IsWalk, Distinct, Has, Seen;
    OneMoreSeen(w, t, eq);
    NoneTwice(w, t, theirs, eq, hashes);
    HasAlike(before, eq, hash, w[t].key);
  }

  /** One key of the walk. */
  method TurnKey<K(!new)>(self: HSet<K>, other: HSet<K>, key: K, mode: Mode, room: bool, granted: bool)
    returns (status: Status)
    requires self.Valid() && self.Apart(other)
    modifies self, self.buckets, self.nodes
    ensures self.Valid() && self.Apart(other)
    ensures fresh(self.nodes - old(self.nodes)) && (self.buckets == old(self.buckets) || fresh(self.buckets))
    ensures mode.Drop? ==> status == Ok
    ensures status == NoMem ==> !(room && granted && old(self.len) < Pow2(63)) && !Has(old(self.nodes), self.eq, key)
    ensures self.len <= old(self.len) + 1
    ensures status == NoMem ==> forall q :: Has(self.nodes, self.eq, q) == Has(old(self.nodes), self.eq, q)
    ensures status == Ok ==> forall q ::
              Has(self.nodes, self.eq, q)
              == if self.eq(key, q) then mode.Add? || (mode.Flip? && !Has(old(self.nodes), self.eq, key))
                 else Has(old(self.nodes), self.eq, q)
  {
    hide Lawful, Keyed, Threaded, Bucketed, Has;
    HasAlike(self.nodes, self.eq, self.hash, key);
    status := Ok;
    var there := false;
    if !mode.Add? {
      there := DropKey(self, other, key);
    }
    if mode.Add? || (mode.Flip? && !there) {
      status := PutKey(self, other, key, room, granted);
    }
  }

  method WalkStep<K(!new)>(self: HSet<K>, other: HSet<K>, node: Node<K, ()>, mode: Mode, room: bool, granted: bool,
                           ghost w: seq<Node<K, ()>>, ghost t: nat, ghost was: set<Node<K, ()>>)
    returns (status: Status, next: Node?<K, ()>)
    requires Walked(self, other, w) && t < |w| && node == w[t] && Mixed(self.nodes, was, w, t, self.eq, mode)
    modifies self, self.buckets, self.nodes
    ensures Walked(self, other, w)
    ensures fresh(self.nodes - old(self.nodes)) && (self.buckets == old(self.buckets) || fresh(self.buckets))
    ensures mode.Drop? ==> status == Ok
    ensures status == NoMem ==> Mixed(self.nodes, was, w, t, self.eq, mode)
    ensures status == NoMem ==> !(room && granted && old(self.len) < Pow2(63))
    ensures self.len <= old(self.len) + 1
    ensures status == Ok ==> next == At(w, t + 1) && Mixed(self.nodes, was, w, t + 1, self.eq, mode)
  {
    hide Lawful, Keyed, Threaded, Bucketed, Has, Seen, WalkOrder, IsWalk, Distinct;
    ghost var before := self.nodes;
    status := TurnKey(self, other, node.key, mode, room, granted);
    next := null;
    if status == Ok {
      StepMixes(before, self.nodes, was, w, t, self.eq, self.hash, other.nodes, other.hash, mode);
      next := other.NextNode(node, t);
    }
  }

  method SweepStart<K(!new)>(self: HSet<K>, other: HSet<K>, ghost mode: Mode) returns (node: Node?<K, ()>)
    requires self.Valid() && self.Apart(other)
    ensures var w := WalkOrder(other.chains);
            node == At(w, 0) && Walked(self, other, w) && Mixed(self.nodes, self.nodes, w, 0, self.eq, mode)
  {
    hide Lawful, Keyed, Threaded, Bucketed, Distinct, IsWalk;
    node := FirstOf(other);
    NoneSeen(WalkOrder(other.chains), self.eq);
  }

  method SweepOn<K(!new)>(self: HSet<K>, other: HSet<K>, first: Node?<K, ()>, mode: Mode, rooms: nat -> bool,
                          grants: nat -> bool, ghost w: seq<Node<K, ()>>)
    returns (status: Status, t: nat)
    requires Walked(self, other, w) && first == At(w, 0) && Mixed(self.nodes, self.nodes, w, 0, self.eq, mode)
    modifies self, self.buckets, self.nodes
    ensures Walked(self, other, w) && (mode.Drop? ==> status == Ok)
    ensures fresh(self.nodes - old(self.nodes)) && (self.buckets == old(self.buckets) || fresh(self.buckets))
    ensures t <= |w| && (status == Ok ==> t == |w|) && Mixed(self.nodes, old(self.nodes), w, t, self.eq, mode)
    ensures status == NoMem ==> t < |w| && !(rooms(t) && grants(t) && old(self.len) + t < Pow2(63))
  {
    hide Walked, Mixed, Pow2;
    status, t := Ok, 0;
    ghost var was := self.nodes;
    var node := first;
    while node != null && status == Ok
      invariant t <= |w| && (status == Ok ==> node == At(w, t)) && fresh(self.nodes - old(self.nodes))
      invariant status == Ok ==> self.len <= old(self.len) + t
      invariant status == NoMem ==> t < |w| && !(rooms(t) && grants(t) && old(self.len) + t < Pow2(63))
      invariant self.buckets == old(self.buckets) || fresh(self.buckets)
      invariant Walked(self, other, w) && Mixed(self.nodes, was, w, t, self.eq, mode) && (mode.Drop? ==> status == Ok)
      decreases |w| - t, status == Ok
    {
      status, node := WalkStep(self, other, node, mode, rooms(t), grants(t), w, t, was);
      t := if status == Ok then t + 1 else t;
    }
  }

  /** The walk behind union, difference and symmetric difference; it ends early only when memory is refused. */
  method Sweep<K(!new)>(self: HSet<K>, other: HSet<K>, mode: Mode, rooms: nat -> bool, grants: nat -> bool)
    returns (status: Status, t: nat)
    requires self.Valid() && self.Apart(other)
    modifies self, self.buckets, self.nodes
    ensures self.Valid() && self.Apart(other) && other.nodes == old(other.nodes) && (mode.Drop? ==> status == Ok)
    ensures fresh(self.nodes - old(self.nodes)) && (self.buckets == old(self.buckets) || fresh(self.buckets))
    ensures var w := WalkOrder(other.chains);
            && IsWalk(w, other.nodes) && |w| == other.len && t <= |w| && (status == Ok ==> t == |w|)
            && (status == NoMem ==> t < |w| && !(rooms(t) && grants(t) && old(self.len) + t < Pow2(63)))
            && Mixed(self.nodes, old(self.nodes), w, t, self.eq, mode)
  {
    hide Walked, Mixed, WalkOrder, IsWalk, Lawful, Keyed, Threaded, Bucketed;
    ghost var w := WalkOrder(other.chains);
    var node := SweepStart(self, other, mode);
    status, t := SweepOn(self, other, node, mode, rooms, grants, w);
    WalkedMeans(self, other, w);
    WalkLength(other);
  }

  lemma WalkLength<K(!new)>(s: HSet<K>)
    requires s.Valid()
    ensures |WalkOrder(s.chains)| == s.len
  {
    hide Lawful, Keyed, Threaded, Bucketed, WalkOrder, Distinct, Elems;
    WalkIsOnce(s.chains, s.nodes);
  }

  lemma WalkedMeans<K(!new)>(self: HSet<K>, other: HSet<K>, w: seq<Node<K, ()>>)
    requires Walked(self, other, w)
    ensures self.Valid() && self.Apart(other) && w == WalkOrder(other.chains) && IsWalk(w, other.nodes)
  {
  }

  /** A whole walk mixes in all of the other set; a broken one leaves each key as it was or as it was to be. */
  lemma MixedMeans<K(!new)>(now: set<Node<K, ()>>, was: set<Node<K, ()>>, w: seq<Node<K, ()>>, t: nat,
                            theirs: set<Node<K, ()>>, eq: (K, K) -> bool, mode: Mode)
    requires t <= |w| && Mixed(now, was, w, t, eq, mode) && IsWalk(w, theirs)
    ensures t == |w| ==> Result(now, was, theirs, eq, mode)
    ensures Partial(now, was, theirs, eq, mode)
  {
    hide Has, Seen, IsWalk;
    SeenAreTheirs(w, t, theirs, eq);
  }

  ghost predicate Result<K(!new)>(now: set<Node<K, ()>>, was: set<Node<K, ()>>, theirs: set<Node<K, ()>>,
                                  eq: (K, K) -> bool, mode: Mode)
  {
    forall q :: Has(now, eq, q) == mode.Mixes(Has(was, eq, q), Has(theirs, eq, q))
  }

  ghost predicate Partial<K(!new)>(now: set<Node<K, ()>>, was: set<Node<K, ()>>, theirs: set<Node<K, ()>>,
                                   eq: (K, K) -> bool, mode: Mode)
  {
    forall q :: Has(now, eq, q) == Has(was, eq, q) || Has(now, eq, q) == mode.Mixes(Has(was, eq, q), Has(theirs, eq, q))
  }

  // ----- the operations

  /** tda_hset_union: with memory granted it succeeds; when it is refused, a key is as it was or as it was to be. */
  method Union<K(!new)>(self: HSet<K>, other: HSet<K>, rooms: nat -> bool, grants: nat -> bool) returns (status: Status)
    requires self.Valid() && (self == other || self.Apart(other))
    modifies self, self.buckets, self.nodes
    ensures self.Valid() && (self == other || self.Apart(other))
    ensures fresh(self.nodes - old(self.nodes)) && (self.buckets == old(self.buckets) || fresh(self.buckets))
    ensures && (forall t :: 0 <= t < old(other.len) ==> rooms(t) && grants(t))
            && old(self.len) + old(other.len) <= Pow2(63)
            ==> status == Ok
    ensures forall q :: Has(old(self.nodes), self.eq, q) ==> Has(self.nodes, self.eq, q)
    ensures forall q :: Has(self.nodes, self.eq, q) ==>
              Has(old(self.nodes), self.eq, q) || Has(old(other.nodes), self.eq, q)
    ensures status == Ok ==>
              forall q :: Has(self.nodes, self.eq, q)
                          <==> Has(old(self.nodes), self.eq, q) || Has(old(other.nodes), self.eq, q)
  {
    hide Has, Mixed, Pow2;
    status := Ok;
    if self != other {
      var t;
      status, t := Sweep(self, other, Add, rooms, grants);
      MixedMeans(self.nodes, old(self.nodes), WalkOrder(other.chains), t, other.nodes, self.eq, Add);
    }
  }

  /** tda_hset_symmetric_difference; a set with itself is cleared. */
  method SymmetricDifference<K(!new)>(self: HSet<K>, other: HSet<K>, rooms: nat -> bool, grants: nat -> bool)
    returns (status: Status)
    requires self.Valid() && (self == other || self.Apart(other))
    modifies self, self.buckets, self.nodes
    ensures self.Valid() && (self == other || self.Apart(other))
    ensures fresh(self.nodes - old(self.nodes)) && (self.buckets == old(self.buckets) || fresh(self.buckets))
    ensures && (forall t :: 0 <= t < old(other.len) ==> rooms(t) && grants(t))
            && old(self.len) + old(other.len) <= Pow2(63)
            ==> status == Ok
    ensures forall q :: !Has(old(other.nodes), self.eq, q) ==>
              Has(self.nodes, self.eq, q) == Has(old(self.nodes), self.eq, q)
    ensures status == Ok ==>
              forall q :: Has(self.nodes, self.eq, q)
                          <==> Has(old(self.nodes), self.eq, q) != Has(old(other.nodes), self.eq, q)
  {
    hide Mixed, Pow2;
    status := Ok;
    if self == other {
      self.Clear();
    } else {
      hide Has;
      var t;
      status, t := Sweep(self, other, Flip, rooms, grants);
      MixedMeans(self.nodes, old(self.nodes), WalkOrder(other.chains), t, other.nodes, self.eq, Flip);
    }
  }

  /** tda_hset_difference: by whichever set is shorter, to the same result. */
  method Difference<K(!new)>(self: HSet<K>, other: HSet<K>)
    requires self.Valid() && (self == other || self.Apart(other))
    modifies self, self.buckets, self.nodes
    ensures self.Valid() && (self == other || self.Apart(other))
    ensures fresh(self.nodes - old(self.nodes)) && (self.buckets == old(self.buckets) || fresh(self.buckets))
    ensures forall q :: Has(self.nodes, self.eq, q)
                        <==> Has(old(self.nodes), self.eq, q) && !Has(old(other.nodes), self.eq, q)
  {
    hide Mixed, Pow2;
    if self == other {
      self.Clear();
    } else if other.len < self.len {
      hide Has;
      var status, t := Sweep(self, other, Drop, _ => true, _ => true);
      MixedMeans(self.nodes, old(self.nodes), WalkOrder(other.chains), t, other.nodes, self.eq, Drop);
    } else {
      Sift(self, other, false);
    }
  }

  /** tda_hset_intersection. */
  method Intersection<K(!new)>(self: HSet<K>, other: HSet<K>)
    requires self.Valid() && (self == other || self.Apart(other))
    modifies self, self.buckets, self.nodes
    ensures self.Valid() && (self == other || self.Apart(other))
    ensures fresh(self.nodes - old(self.nodes)) && (self.buckets == old(self.buckets) || fresh(self.buckets))
    ensures forall q :: Has(self.nodes, self.eq, q)
                        <==> Has(old(self.nodes), self.eq, q) && Has(old(other.nodes), self.eq, q)
  {
    if self != other {
      Sift(self, other, true);
    }
  }

  /** Keeps the keys the other set has, or those it has not. */
  method Sift<K(!new)>(self: HSet<K>, other: HSet<K>, want: bool)
    requires self.Valid() && self.Apart(other)
    modifies self, self.buckets, self.nodes
    ensures self.Valid() && self.Apart(other) && self.nodes <= old(self.nodes) && self.buckets == old(self.buckets)
    ensures forall q :: Has(self.nodes, self.eq, q)
                        <==> Has(old(self.nodes), self.eq, q) && Has(old(other.nodes), self.eq, q) == want
  {
    hide Lawful, Keyed, Threaded, Bucketed, Get, Distinct, WalkOrder, Has;
    self.Retain((_, _, _) => true, other, want);
    KeptMeans(self.nodes, old(self.nodes), other.nodes, self.eq, self.hash, want);
  }

  lemma KeptMeans<K(!new)>(now: set<Node<K, ()>>, was: set<Node<K, ()>>, theirs: set<Node<K, ()>>, eq: (K, K) -> bool,
                           hash: K -> nat, want: bool)
    requires Lawful(eq, hash) && now <= was && forall n :: n in was ==> (n in now <==> Has(theirs, eq, n.key) == want)
    ensures forall q :: Has(now, eq, q) <==> Has(was, eq, q) && Has(theirs, eq, q) == want
  {
    hide Lawful;
    forall q ensures Has(now, eq, q) <==> Has(was, eq, q) && Has(theirs, eq, q) == want {
      forall n | n in was && eq(n.key, q) ensures n in now <==> Has(theirs, eq, q) == want {
        HasAlike(theirs, eq, hash, n.key);
      }
    }
  }

  /** tda_hset_is_subset: a longer set is no subset, and otherwise each key is looked up. */
  method IsSubset<K(!new)>(self: HSet<K>, other: HSet<K>) returns (sub: bool)
    requires self.Valid() && other.Valid() && self.eq == other.eq
    ensures sub <==> forall q :: Has(self.nodes, self.eq, q) ==> Has(other.nodes, self.eq, q)
  {
    hide Keyed, Threaded, Bucketed, Lawful;
    SubsetByKeys(self.nodes, other.nodes, self.eq, self.hash);
    if self == other {
      return true;
    }
    if self.len > other.len {
      return false;
    }
    sub := self.AllAnswered(other, (_, _) => true);
    assert forall n :: n in self.nodes ==>
             (self.Answered(n, other, (_, _) => true) <==> Has(other.nodes, self.eq, n.key));
  }

  /** tda_hset_eq: equal lengths and every key found one way are containment both ways. */
  method Equals<K(!new)>(self: HSet<K>, other: HSet<K>) returns (same: bool)
    requires self.Valid() && other.Valid() && self.eq == other.eq
    ensures same <==> forall q :: Has(self.nodes, self.eq, q) <==> Has(other.nodes, self.eq, q)
  {
    hide Keyed, Threaded, Bucketed, Lawful, Has;
    if self == other {
      return true;
    }
    SameByKeys(self.nodes, other.nodes, self.eq, self.hash, other.hash);
    if self.len != other.len {
      return false;
    }
    same := self.AllAnswered(other, (_, _) => true);
    AnsweredIsHas(self, other);
  }

  lemma AnsweredIsHas<K(!new)>(self: HSet<K>, other: HSet<K>)
    requires self.eq == other.eq
    ensures forall n :: n in self.nodes ==>
              (self.Answered(n, other, (_, _) => true) <==> Has(other.nodes, self.eq, n.key))
  {
  }

  lemma SameByKeys<K(!new)>(mine: set<Node<K, ()>>, theirs: set<Node<K, ()>>, eq: (K, K) -> bool, ha: K -> nat,
                            hb: K -> nat)
    requires Lawful(eq, ha) && Lawful(eq, hb) && Keyed(mine, eq, ha) && Keyed(theirs, eq, hb)
    ensures (forall q :: Has(mine, eq, q) <==> Has(theirs, eq, q))
            <==> |mine| == |theirs| && forall n :: n in mine ==> Has(theirs, eq, n.key)
  {
    hide Lawful, Keyed, Has;
    SubsetByKeys(mine, theirs, eq, ha);
    SubsetByKeys(theirs, mine, eq, hb);
    if |mine| == |theirs| && forall n :: n in mine ==> Has(theirs, eq, n.key) {
      AllPartners(mine, theirs, eq, ha);
    }
  }

  lemma AllPartners<K(!new)>(mine: set<Node<K, ()>>, theirs: set<Node<K, ()>>, eq: (K, K) -> bool, hash: K -> nat)
    requires Lawful(eq, hash) && Keyed(mine, eq, hash) && |mine| == |theirs|
    requires forall n :: n in mine ==> Has(theirs, eq, n.key)
    ensures forall m :: m in theirs ==> Has(mine, eq, m.key)
  {
    hide Lawful, Keyed, Has;
    PartnersCount(mine, theirs, eq, hash);
    SubsetCount(Partners(mine, theirs, eq), theirs);
    forall m | m in theirs ensures Has(mine, eq, m.key) {
      assert m in Partners(mine, theirs, eq);
    }
  }

  lemma SubsetByKeys<K(!new)>(mine: set<Node<K, ()>>, theirs: set<Node<K, ()>>, eq: (K, K) -> bool, hash: K -> nat)
    requires Lawful(eq, hash) && Keyed(mine, eq, hash)
    ensures (forall q :: Has(mine, eq, q) ==> Has(theirs, eq, q)) <==> forall n :: n in mine ==> Has(theirs, eq, n.key)
    ensures (forall n :: n in mine ==> Has(theirs, eq, n.key)) ==> |mine| <= |theirs|
  {
    hide Lawful, Keyed;
    if forall q :: Has(mine, eq, q) ==> Has(theirs, eq, q) {
      forall n | n in mine ensures Has(theirs, eq, n.key) {
        Reflexive(eq, hash, n.key);
        assert Has(mine, eq, n.key);
      }
    }
    if forall n :: n in mine ==> Has(theirs, eq, n.key) {
      PartnersCount(mine, theirs, eq, hash);
      forall q | Has(mine, eq, q) ensures Has(theirs, eq, q) {
        var n :| n in mine && eq(n.key, q);
        HasAlike(theirs, eq, hash, n.key);
      }
    }
  }
}
