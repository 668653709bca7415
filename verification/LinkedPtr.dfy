/** linked_ptr of linked_ptr.h: the owners of one object form a circular doubly linked list, and the
    last owner to leave deletes the object. */
module LinkedPtrs {

  datatype Pointer = Null | To(id: nat)

  class LinkedPtr {
    var itsPtr: Pointer
    var itsPrev: LinkedPtr?
    var itsNext: LinkedPtr?

    /** explicit linked_ptr(X* p): a ring of one. */
    constructor (p: Pointer)
      ensures itsPtr == p && itsPrev == this && itsNext == this
    {
      itsPtr := p;
      itsPrev := this;
      itsNext := this;
    }

    /** A node that has not been linked yet. */
    constructor Detached()
      ensures itsPtr == Null && itsPrev == null && itsNext == null
    {
      itsPtr, itsPrev, itsNext := Null, null, null;
    }

    predicate Unique()
      reads this
    {
      if itsPrev != null then itsPrev == this else true
    }
  }

  /** The owners of one object, in ring order. */
  datatype Ring = Ring(target: Pointer, nodes: seq<LinkedPtr>)

  predicate Distinct(s: seq<LinkedPtr>) {
    forall i, j :: 0 <= i < j < |s| ==> s[i] != s[j]
  }

  function NextIndex(i: nat, n: nat): (j: nat)
    requires i < n
    ensures j < n
  {
    if i + 1 < n then i + 1 else 0
  }

  function PrevIndex(i: nat, n: nat): (j: nat)
    requires i < n
    ensures j < n
  {
    if 0 < i then i - 1 else n - 1
  }

  /** A well-formed cyclic doubly linked list whose nodes all hold the target. */
  predicate Linked(r: Ring)
    reads r.nodes
  {
    0 < |r.nodes| && Distinct(r.nodes) && forall i :: 0 <= i < |r.nodes| ==> LinkedAt(r, i)
  }

  predicate LinkedAt(r: Ring, i: nat)
    requires i < |r.nodes|
    reads r.nodes
  {
    && r.nodes[i].itsPtr == r.target
    && r.nodes[i].itsNext == r.nodes[NextIndex(i, |r.nodes|)]
    && r.nodes[i].itsPrev == r.nodes[PrevIndex(i, |r.nodes|)]
  }

  function Rotate(r: Ring, k: nat): Ring
    requires k < |r.nodes|
  {
    Ring(r.target, r.nodes[k + 1..] + r.nodes[..k + 1])
  }

  /** Where element `i` of the rotated ring stood before. */
  function Before(i: nat, k: nat, n: nat): (j: nat)
    requires i < n && k < n
    ensures j < n
  {
    if i + k + 1 < n then i + k + 1 else i + k + 1 - n
  }

  lemma RotateAt(r: Ring, k: nat)
    requires k < |r.nodes|
    ensures |Rotate(r, k).nodes| == |r.nodes|
    ensures forall i :: 0 <= i < |r.nodes| ==> Rotate(r, k).nodes[i] == r.nodes[Before(i, k, |r.nodes|)]
    ensures Nodes(Rotate(r, k)) == Nodes(r)
  {
    assert r.nodes == r.nodes[..k + 1] + r.nodes[k + 1..];
  }

  lemma BeforeSteps(i: nat, k: nat, n: nat)
    requires i < n && k < n
    ensures Before(NextIndex(i, n), k, n) == NextIndex(Before(i, k, n), n)
    ensures Before(PrevIndex(i, n), k, n) == PrevIndex(Before(i, k, n), n)
  {
  }

  lemma RotateDistinct(r: Ring, k: nat)
    requires k < |r.nodes| && Distinct(r.nodes)
    ensures Distinct(Rotate(r, k).nodes)
  {
    hide Rotate;
    RotateAt(r, k);
    var s, n := Rotate(r, k).nodes, |r.nodes|;
    forall i, j | 0 <= i < j < n
      ensures s[i] != s[j]
    {
      var a, b := Before(i, k, n), Before(j, k, n);
      assert a != b;
      assert s[i] == r.nodes[a] && s[j] == r.nodes[b];
    }
  }

  /** A ring has no beginning: it can be read off from any node.  Node `k` becomes the last. */
  lemma RotateLinked(r: Ring, k: nat)
    requires Linked(r) && k < |r.nodes|
    ensures Linked(Rotate(r, k))
    ensures Rotate(r, k).nodes[|r.nodes| - 1] == r.nodes[k]
  {
    hide Rotate, Distinct, NextIndex, PrevIndex;
    RotateDistinct(r, k);
    RotateAt(r, k);
    RotateTarget(r, k);
    var s, n := Rotate(r, k).nodes, |r.nodes|;
    assert Before(n - 1, k, n) == k;
    hide Before;
    forall i | 0 <= i < n
      ensures LinkedAt(Rotate(r, k), i)
    {
      BeforeSteps(i, k, n);
      assert LinkedAt(r, Before(i, k, n));
    }
  }

  lemma RotateTarget(r: Ring, k: nat)
    requires k < |r.nodes|
    ensures Rotate(r, k).target == r.target
  {
  }

  // ---------- The two operations on rings ----------

  /** acquire(r): the node enters the ring right after `r`. */
  method Acquire(l: LinkedPtr, r: LinkedPtr, ghost ring: Ring)
    requires Linked(ring) && r == ring.nodes[|ring.nodes| - 1] && l !in ring.nodes
    modifies l, r, r.itsNext
    ensures Linked(Ring(ring.target, ring.nodes + [l]))
  {
    ghost var n := |ring.nodes|;
    ghost var grown := Ring(ring.target, ring.nodes + [l]);
    assert LinkedAt(ring, n - 1);
    DistinctEnds(ring.nodes);
    assert Distinct(grown.nodes);
    l.itsPtr := r.itsPtr;
    l.itsNext := r.itsNext;
    l.itsNext.itsPrev := l;
    l.itsPrev := r;
    r.itsNext := l;
    hide Distinct;
    forall i | 0 <= i < n + 1
      ensures LinkedAt(grown, i)
    {
      if i < n {
        assert old(LinkedAt(ring, i));
        assert grown.nodes[i] == ring.nodes[i];
      }
    }
  }

  lemma DistinctEnds(s: seq<LinkedPtr>)
    requires 0 < |s| && Distinct(s)
    ensures forall i :: 0 < i < |s| ==> s[i] != s[0]
    ensures forall i :: 0 <= i < |s| - 1 ==> s[i] != s[|s| - 1]
  {
  }

  /** The relinking half of release(). */
  method Unlink(l: LinkedPtr, ghost ring: Ring)
    requires Linked(ring) && |ring.nodes| > 1 && l == ring.nodes[|ring.nodes| - 1]
    modifies l, l.itsPrev, l.itsNext
    ensures Linked(Ring(ring.target, ring.nodes[..|ring.nodes| - 1]))
  {
    ghost var n := |ring.nodes|;
    ghost var rest := ring.nodes[..n - 1];
    assert LinkedAt(ring, n - 1);
    assert l.itsPrev == rest[n - 2] && l.itsNext == rest[0];
    DistinctFront(ring.nodes);
    hide Distinct;
    l.itsPrev.itsNext := l.itsNext;
    l.itsNext.itsPrev := l.itsPrev;
    l.itsPrev, l.itsNext := null, null;
    forall i | 0 <= i < n - 1
      ensures LinkedAt(Ring(ring.target, rest), i)
    {
      assert rest[i] == ring.nodes[i];
      assert old(LinkedAt(ring, i));
    }
  }

  lemma DistinctFront(s: seq<LinkedPtr>)
    requires |s| > 1 && Distinct(s)
    ensures Distinct(s[..|s| - 1])
    ensures forall i :: 0 <= i < |s| - 2 ==> s[i] != s[|s| - 2]
    ensures forall i :: 0 < i < |s| - 1 ==> s[i] != s[0]
    ensures forall i :: 0 <= i < |s| - 1 ==> s[i] != s[|s| - 1]
  {
  }

  /** release(): reports what was deleted, if this was the last node. */
  method Release(l: LinkedPtr, ghost ring: Ring) returns (deletes: bool, target: Pointer)
    requires Linked(ring) && l == ring.nodes[|ring.nodes| - 1]
    modifies l, l.itsPrev, l.itsNext
    ensures deletes <==> |ring.nodes| == 1
    ensures target == ring.target && l.itsPtr == Null
    ensures !deletes ==> Linked(Ring(ring.target, ring.nodes[..|ring.nodes| - 1]))
  {
    deletes, target := l.Unique(), l.itsPtr;
    ghost var n := |ring.nodes|;
    assert LinkedAt(ring, n - 1);
    if !deletes {
      Unlink(l, ring);
      assert l !in ring.nodes[..n - 1];
    }
    l.itsPtr := Null;
  }

  lemma LeavesRest(r: Ring, l: LinkedPtr)
    requires 0 < |r.nodes| && Distinct(r.nodes) && r.nodes[|r.nodes| - 1] == l
    ensures Nodes(Ring(r.target, r.nodes[..|r.nodes| - 1])) == Nodes(r) - {l}
  {
    assert r.nodes == r.nodes[..|r.nodes| - 1] + [l];
  }

  method AcquireAmong(l: LinkedPtr, r: LinkedPtr, ghost ring: Ring, ghost others: map<nat, Ring>)
    requires Linked(ring) && r == ring.nodes[|ring.nodes| - 1] && l !in ring.nodes
    requires forall j :: j in others ==> Linked(others[j])
    requires forall j, n :: j in others && n in others[j].nodes ==> n != l && n != r && n != r.itsNext
    modifies l, r, r.itsNext
    ensures Linked(Ring(ring.target, ring.nodes + [l]))
    ensures forall j :: j in others ==> Linked(others[j])
  {
    Acquire(l, r, ring);
    forall j | j in others
      ensures Linked(others[j])
    {
      assert forall i :: 0 <= i < |others[j].nodes| ==> others[j].nodes[i] in others[j].nodes;
    }
  }

  method ReleaseAmong(l: LinkedPtr, ghost ring: Ring, ghost others: map<nat, Ring>)
    returns (deletes: bool, target: Pointer)
    requires Linked(ring) && l == ring.nodes[|ring.nodes| - 1]
    requires forall j :: j in others ==> Linked(others[j])
    requires forall j, n :: j in others && n in others[j].nodes ==> n != l && n != l.itsPrev && n != l.itsNext
    modifies l, l.itsPrev, l.itsNext
    ensures deletes <==> |ring.nodes| == 1
    ensures target == ring.target && l.itsPtr == Null
    ensures !deletes ==> Linked(Ring(ring.target, ring.nodes[..|ring.nodes| - 1]))
    ensures forall j :: j in others ==> Linked(others[j])
  {
    deletes, target := Release(l, ring);
    forall j | j in others
      ensures Linked(others[j])
    {
      assert forall i :: 0 <= i < |others[j].nodes| ==> others[j].nodes[i] in others[j].nodes;
    }
  }

  lemma GrownNodes(r: Ring, l: LinkedPtr)
    ensures Nodes(Ring(r.target, r.nodes + [l])) == Nodes(r) + {l}
  {
  }

  lemma OnlyNode(r: Ring, l: LinkedPtr)
    requires 0 < |r.nodes| && Distinct(r.nodes) && r.nodes[|r.nodes| - 1] == l
    ensures Nodes(r) == {l} <==> |r.nodes| == 1
  {
    if |r.nodes| > 1 {
      assert r.nodes[0] in Nodes(r) && r.nodes[0] != l;
    }
  }

  // ---------- All owners ----------

  /** Every node is in exactly the ring that is its home. */
  ghost predicate Partition(rings: map<nat, Ring>, home: map<LinkedPtr, nat>) {
    && (forall n :: n in home ==> home[n] in rings && n in rings[home[n]].nodes)
    && (forall k, n :: k in rings && n in rings[k].nodes ==> n in home && home[n] == k)
  }

  /** No object has two rings, and a deleted object has none. */
  ghost predicate Targets(rings: map<nat, Ring>, deleted: seq<nat>) {
    && (forall j, k :: j in rings && k in rings && j != k && rings[j].target == rings[k].target ==>
          rings[j].target == Null)
    && (forall k :: k in rings && rings[k].target.To? ==> rings[k].target.id !in deleted)
    && (forall i, j :: 0 <= i < j < |deleted| ==> deleted[i] != deleted[j])
  }

  lemma PartitionAdd(rings: map<nat, Ring>, home: map<LinkedPtr, nat>, k: nat, p: Pointer, l: LinkedPtr)
    requires Partition(rings, home) && k !in rings && l !in home
    ensures Partition(rings[k := Ring(p, [l])], home[l := k])
  {
  }

  /** Ring `k` gets or loses node `l`. */
  lemma PartitionEnter(rings: map<nat, Ring>, home: map<LinkedPtr, nat>, k: nat, r: Ring, l: LinkedPtr)
    requires Partition(rings, home) && k in rings && l !in home
    requires Nodes(r) == Nodes(rings[k]) + {l}
    ensures Partition(rings[k := r], home[l := k])
  {
    forall n
      ensures n in r.nodes <==> n in rings[k].nodes || n == l
    {
      assert (n in r.nodes <==> n in Nodes(r)) && (n in rings[k].nodes <==> n in Nodes(rings[k]));
    }
  }

  lemma PartitionLeave(rings: map<nat, Ring>, home: map<LinkedPtr, nat>, k: nat, r: Ring, l: LinkedPtr)
    requires Partition(rings, home) && k in rings && l in home && home[l] == k
    requires Nodes(r) == Nodes(rings[k]) - {l}
    ensures Partition(rings[k := r], home - {l})
    ensures r.nodes == [] ==> Partition(rings - {k}, home - {l})
  {
    forall n
      ensures n in r.nodes <==> n in rings[k].nodes && n != l
    {
      assert (n in r.nodes <==> n in Nodes(r)) && (n in rings[k].nodes <==> n in Nodes(rings[k]));
    }
  }

  lemma TargetsKeep(rings: map<nat, Ring>, deleted: seq<nat>, k: nat, r: Ring)
    requires Targets(rings, deleted) && k in rings && r.target == rings[k].target
    ensures Targets(rings[k := r], deleted)
  {
  }

  lemma TargetsDrop(rings: map<nat, Ring>, deleted: seq<nat>, k: nat)
    requires Targets(rings, deleted) && k in rings
    ensures Targets(rings - {k}, deleted + if rings[k].target.To? then [rings[k].target.id] else [])
  {
  }

  predicate OwnedIn(rings: map<nat, Ring>, id: nat) {
    exists k :: k in rings && rings[k].target == To(id)
  }

  /** Every object ever handed over is owned or has been deleted: none is forgotten. */
  ghost predicate Ledger(rings: map<nat, Ring>, deleted: seq<nat>, created: set<nat>) {
    forall id :: id in created <==> id in deleted || OwnedIn(rings, id)
  }

  lemma LedgerConstruct(rings: map<nat, Ring>, deleted: seq<nat>, created: set<nat>, k: nat, r: Ring)
    requires Ledger(rings, deleted, created) && k !in rings
    ensures Ledger(rings[k := r], deleted, created + if r.target.To? then {r.target.id} else {})
  {
    var more := rings[k := r];
    forall id
      ensures OwnedIn(more, id) <==> OwnedIn(rings, id) || r.target == To(id)
    {
      assert more[k] == r;
      assert forall j :: j in rings ==> j in more && more[j] == rings[j];
    }
  }

  lemma SameElsewhere(before: map<nat, Ring>, after: map<nat, Ring>, k: nat, j: nat)
    requires after - {k} == before - {k} && j != k
    ensures (j in before <==> j in after) && (j in before ==> before[j] == after[j])
  {
    assert j in before <==> j in before - {k};
    assert j in after <==> j in after - {k};
  }

  /** What is owned depends on ring `k` only through its target. */
  lemma OwnedApart(before: map<nat, Ring>, after: map<nat, Ring>, k: nat, id: nat)
    requires after - {k} == before - {k} && OwnedIn(before, id)
    ensures OwnedIn(after, id) || (k in before && before[k].target == To(id))
  {
    var j :| j in before && before[j].target == To(id);
    if j != k {
      SameElsewhere(before, after, k, j);
      assert after[j].target == To(id);
    }
  }

  lemma LedgerJoined(before: map<nat, Ring>, after: map<nat, Ring>, k: nat, l: LinkedPtr,
                     deleted: seq<nat>, created: set<nat>)
    requires Ledger(before, deleted, created) && Joined(before, after, k, l)
    ensures Ledger(after, deleted, created)
  {
    forall id
      ensures OwnedIn(after, id) <==> OwnedIn(before, id)
    {
      if OwnedIn(before, id) {
        OwnedApart(before, after, k, id);
      }
      if OwnedIn(after, id) {
        OwnedApart(after, before, k, id);
      }
    }
  }

  lemma LedgerParted(before: map<nat, Ring>, after: map<nat, Ring>, k: nat, l: LinkedPtr,
                     deletedBefore: seq<nat>, deletedAfter: seq<nat>, created: set<nat>)
    requires Ledger(before, deletedBefore, created) && Parted(before, after, k, l, deletedBefore, deletedAfter)
    ensures Ledger(after, deletedAfter, created)
  {
    hide Nodes;
    forall id
      ensures id in deletedAfter || OwnedIn(after, id) <==> id in deletedBefore || OwnedIn(before, id)
    {
      if OwnedIn(before, id) {
        OwnedApart(before, after, k, id);
      }
      if OwnedIn(after, id) {
        OwnedApart(after, before, k, id);
      }
      assert before[k].target == To(id) ==> OwnedIn(before, id);
    }
  }

  class Owners {
    ghost var created: set<nat>           // every object handed to a constructor
    ghost var rings: map<nat, Ring>
    ghost var home: map<LinkedPtr, nat>   // the ring of each live node
    ghost var nextRing: nat               // above every ring number in use
    var deleted: seq<nat>                 // every `delete`, in order

    ghost predicate AllLinked()
      requires Partition(rings, home)
      reads this, home.Keys
    {
      forall k :: k in rings ==> Linked(rings[k])
    }

    ghost predicate Valid()
      reads this, home.Keys
    {
      && Partition(rings, home) && Targets(rings, deleted) && AllLinked()
      && Ledger(rings, deleted, created)
      && (forall k :: k in rings ==> k < nextRing)
    }

    ghost function RingOf(l: LinkedPtr): Ring
      requires Valid() && l in home
      reads this, home.Keys
    {
      rings[home[l]]
    }

    constructor ()
      ensures Valid() && home == map[] && deleted == [] && created == {}
    {
      rings, home, nextRing, deleted, created := map[], map[], 0, [], {};
    }

    /** The ring of a node, read so that the node comes last. */
    ghost function Brought(l: LinkedPtr): (r: Ring)
      requires Valid() && l in home
      reads this, home.Keys
      ensures Linked(r) && 0 < |r.nodes| && r.nodes[|r.nodes| - 1] == l
      ensures r.target == RingOf(l).target && Nodes(r) == Nodes(RingOf(l))
    {
      var ring := RingOf(l);
      var k :| 0 <= k < |ring.nodes| && ring.nodes[k] == l;
      RotateLinked(ring, k);
      RotateAt(ring, k);
      Rotate(ring, k)
    }

    lemma NeighboursLive(l: LinkedPtr)
      requires Valid() && l in home
      ensures l.itsNext != null && l.itsPrev != null && l.itsNext in home && l.itsPrev in home
      ensures home[l.itsNext] == home[l.itsPrev] == home[l]
    {
      var ring := RingOf(l);
      var i :| 0 <= i < |ring.nodes| && ring.nodes[i] == l;
      assert LinkedAt(ring, i);
      assert ring.nodes[NextIndex(i, |ring.nodes|)] in ring.nodes;
      assert ring.nodes[PrevIndex(i, |ring.nodes|)] in ring.nodes;
    }

    /** Relinking nodes of ring `k` (and nodes of no ring) leaves every other ring alone. */
    lemma OtherRings(k: nat, touched: set<LinkedPtr?>)
      requires Valid()
      requires forall n :: n in touched && n != null && n in home ==> home[n] == k
      ensures forall j, n :: j in rings && j != k && n in rings[j].nodes ==> n !in touched
    {
    }

    /** linked_ptr(X*): the object must be one that no ring owns and that was not deleted. */
    method Construct(p: Pointer) returns (l: LinkedPtr)
      requires Valid()
      requires p.To? ==> p.id !in deleted && forall k :: k in rings ==> rings[k].target != p
      modifies this
      ensures Valid() && fresh(l) && deleted == old(deleted)
      ensures old(nextRing) !in old(rings) && home == old(home)[l := old(nextRing)]
      ensures rings == old(rings)[old(nextRing) := Ring(p, [l])]
      ensures created == old(created) + if p.To? then {p.id} else {}
    {
      hide Partition, Ledger;
      l := new LinkedPtr(p);
      assert LinkedAt(Ring(p, [l]), 0);
      assert Linked(Ring(p, [l]));
      hide Linked;
      PartitionAdd(rings, home, nextRing, p, l);
      LedgerConstruct(rings, deleted, created, nextRing, Ring(p, [l]));
      created := created + if p.To? then {p.id} else {};
      home := home[l := nextRing];
      rings := rings[nextRing := Ring(p, [l])];
      nextRing := nextRing + 1;
    }

    /** The copy constructor: the new node joins the ring of `r`. */
    method Copy(r: LinkedPtr) returns (l: LinkedPtr)
      requires Valid() && r in home
      modifies this, r, r.itsNext
      ensures Valid() && fresh(l) && deleted == old(deleted) && created == old(created)
      ensures home == old(home)[l := old(home)[r]]
      ensures Joined(old(rings), rings, old(home)[r], l)
    {
      l := new LinkedPtr.Detached();
      Join(l, r);
    }

    /** operator=: nothing on self-assignment; otherwise leave the old ring, then join the other. */
    method Assign(l: LinkedPtr, r: LinkedPtr)
      requires Valid() && l in home && r in home
      modifies this, home.Keys
      ensures Valid() && created == old(created) && home.Keys == old(home).Keys && home[l] == home[r] == old(home)[r]
      ensures l == r ==> rings == old(rings) && deleted == old(deleted)
      ensures l != r ==> exists middle ::
                && Parted(old(rings), middle, old(home)[l], l, old(deleted), deleted)
                && Joined(middle, rings, old(home)[r], l)
    {
      hide Partition, Linked, Targets, Nodes, Joined, Parted, Ledger;
      if l != r {
        NeighboursLive(l);
        Leave(l);
        ghost var middle := rings;
        NeighboursLive(r);
        Join(l, r);
        assert Joined(middle, rings, old(home)[r], l);
      }
    }

    /** The destructor. */
    method Destroy(l: LinkedPtr)
      requires Valid() && l in home
      modifies this, home.Keys
      ensures Valid() && home == old(home) - {l} && created == old(created)
      ensures Parted(old(rings), rings, old(home)[l], l, old(deleted), deleted)
    {
      NeighboursLive(l);
      Leave(l);
    }

    ghost function Grown(l: LinkedPtr, r: LinkedPtr): Ring
      requires Valid() && r in home
      reads this, home.Keys
    {
      Ring(Brought(r).target, Brought(r).nodes + [l])
    }

    lemma BeforeJoin(l: LinkedPtr, r: LinkedPtr)
      requires Valid() && r in home && l !in home
      ensures var k, grown := home[r], Grown(l, r);
              && k in rings && l !in Brought(r).nodes && r.itsNext != null
              && Partition(rings[k := grown], home[l := k]) && Targets(rings[k := grown], deleted)
              && Joined(rings, rings[k := grown], k, l)
              && forall j, n :: j in rings - {k} && n in rings[j].nodes ==> n != l && n != r && n != r.itsNext
    {
      hide Brought;
      var k, ring, grown := home[r], Brought(r), Grown(l, r);
      NeighboursLive(r);
      OtherRings(k, {l, r, r.itsNext});
      assert l !in Nodes(RingOf(r));
      GrownNodes(ring, l);
      hide Partition, Linked, Targets, Nodes;
      PartitionEnter(rings, home, k, grown, l);
      TargetsKeep(rings, deleted, k, grown);
      assert rings[k := grown] - {k} == rings - {k};
    }

    /** acquire(), seen from the set of all rings. */
    method Join(l: LinkedPtr, r: LinkedPtr)
      requires Valid() && r in home && l !in home
      modifies this, l, r, r.itsNext
      ensures Valid() && deleted == old(deleted) && created == old(created)
      ensures home == old(home)[l := old(home)[r]]
      ensures Joined(old(rings), rings, old(home)[r], l)
    {
      hide Brought, Partition, Linked, Targets, Nodes, Joined, Ledger;
      ghost var k, ring, grown := home[r], Brought(r), Grown(l, r);
      BeforeJoin(l, r);
      ghost var others := rings - {k};
      AcquireAmong(l, r, ring, others);
      LedgerJoined(rings, rings[k := grown], k, l, deleted, created);
      home := home[l := k];
      rings := rings[k := grown];
      assert forall j :: j in rings && j != k ==> j in others && rings[j] == others[j];
    }

    /** The ring of a node without the node. */
    ghost function Shrunk(l: LinkedPtr): Ring
      requires Valid() && l in home
      reads this, home.Keys
    {
      Ring(Brought(l).target, Brought(l).nodes[..|Brought(l).nodes| - 1])
    }

    lemma BeforeLeave(l: LinkedPtr)
      requires Valid() && l in home
      ensures var k, ring, rest := home[l], Brought(l), Shrunk(l);
              var gone := if ring.target.To? then [ring.target.id] else [];
              && k in rings
              && (|ring.nodes| > 1 ==> Partition(rings[k := rest], home - {l}) && Targets(rings[k := rest], deleted) &&
                                       Parted(rings, rings[k := rest], k, l, deleted, deleted))
              && (|ring.nodes| == 1 ==> Partition(rings - {k}, home - {l}) && Targets(rings - {k}, deleted + gone) &&
                                        Parted(rings, rings - {k}, k, l, deleted, deleted + gone))
              && forall j, n :: j in rings - {k} && n in rings[j].nodes ==> n != l && n != l.itsPrev && n != l.itsNext
    {
      hide Brought;
      var k, ring, rest := home[l], Brought(l), Shrunk(l);
      NeighboursLive(l);
      OtherRings(k, {l, l.itsPrev, l.itsNext});
      LeavesRest(ring, l);
      OnlyNode(ring, l);
      hide Partition, Linked, Targets, Nodes;
      PartitionLeave(rings, home, k, rest, l);
      TargetsKeep(rings, deleted, k, rest);
      TargetsDrop(rings, deleted, k);
      assert rings[k := rest] - {k} == rings - {k} == rings - {k} - {k};
    }

    /** release(), seen from the set of all rings. */
    method Leave(l: LinkedPtr)
      requires Valid() && l in home
      modifies this, l, l.itsPrev, l.itsNext
      ensures Valid() && home == old(home) - {l} && created == old(created)
      ensures Parted(old(rings), rings, old(home)[l], l, old(deleted), deleted)
    {
      hide Brought, Partition, Linked, Targets, Nodes, Parted, Ledger;
      ghost var k, ring, rest := home[l], Brought(l), Shrunk(l);
      BeforeLeave(l);
      ghost var others := rings - {k};
      var deletes, target := ReleaseAmong(l, ring, others);
      if deletes {
        deleted := deleted + if target.To? then [target.id] else [];
        rings := rings - {k};
      } else {
        rings := rings[k := rest];
      }
      assert forall j :: j in rings && j != k ==> j in others && rings[j] == others[j];
      home := home - {l};
      LedgerParted(old(rings), rings, k, l, old(deleted), deleted, created);
    }
  }

  /** After any run: an object is deleted exactly once if its last owner is gone, and not at all
      while it has one; there is nothing in between. */
  lemma DeletedIffUnowned(o: Owners, id: nat)
    requires o.Valid() && id in o.created
    ensures id in o.deleted <==> !OwnedIn(o.rings, id)
    ensures multiset(o.deleted)[id] == if OwnedIn(o.rings, id) then 0 else 1
  {
    Once(o.deleted, id);
  }

  lemma {:induction false} Once(s: seq<nat>, id: nat)
    requires forall i, j :: 0 <= i < j < |s| ==> s[i] != s[j]
    ensures multiset(s)[id] == if id in s then 1 else 0
  {
    if s != [] {
      Once(s[..|s| - 1], id);
      assert s == s[..|s| - 1] + [s[|s| - 1]];
    }
  }

  ghost function Nodes(r: Ring): set<LinkedPtr> {
    set n | n in r.nodes
  }

  /** Ring `k` has one more owner of the same object, and every other ring is as before. */
  ghost predicate Joined(before: map<nat, Ring>, after: map<nat, Ring>, k: nat, l: LinkedPtr) {
    && k in before && k in after && after - {k} == before - {k}
    && after[k].target == before[k].target
    && Nodes(after[k]) == Nodes(before[k]) + {l}
  }

  /** Ring `k` has lost owner `l`; when that was the last one the ring is gone and its object has
      been deleted, and in no other case has anything been deleted. */
  ghost predicate Parted(before: map<nat, Ring>, after: map<nat, Ring>, k: nat, l: LinkedPtr,
                         deletedBefore: seq<nat>, deletedAfter: seq<nat>)
  {
    && k in before && after - {k} == before - {k}
    && if Nodes(before[k]) == {l} then
         && k !in after
         && deletedAfter == deletedBefore + if before[k].target.To? then [before[k].target.id] else []
       else
         && k in after && after[k].target == before[k].target
         && Nodes(after[k]) == Nodes(before[k]) - {l}
         && deletedAfter == deletedBefore
  }
}
