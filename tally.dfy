/** `GPUReducerTally`: the pinned-memory bookkeeping of a GPU reducer. A
    singly linked list of resource nodes, one per stream id, each holding a
    singly linked list of value nodes; `new_value` hands out a fresh value
    slot for a stream, the iterators walk the streams or all value slots, and
    `free_list` releases everything.

    The `next` links are written once, right after a node is allocated, and
    never again, so they are `const` here; what the source relinks in place is
    `stream_list` and each resource node's `node_list`. */
module ReducerTally {

  /** `Node`: a value slot in pinned memory and the link to the next one. */
  class Node<T(0)> {
    const next: Node?<T>
    var value: T

    constructor(next: Node?<T>)
      ensures this.next == next
    {
      this.next := next;
    }
  }

  /** `ResourceNode`: one per stream id, with the list of that stream's value
      slots. */
  class ResourceNode<Id, T(0)> {
    const next: ResourceNode?<Id, T>
    const id: Id
    var node_list: Node?<T>

    constructor(next: ResourceNode?<Id, T>, id: Id)
      ensures this.next == next && this.id == id && node_list == null
    {
      this.next := next;
      this.id := id;
      node_list := null;
    }
  }

  // ---------------------------------------------------------------------
  // The abstract view: streams in list order, each with its value slots
  // in list order
  // ---------------------------------------------------------------------

  datatype Stream<Id, T(0)> = Stream(id: Id, values: seq<Node<T>>)

  /** Where the search loop of `new_value` stops: the first stream with `id`,
      or -1 when there is none. */
  function IndexOf<Id(==), T(0)>(s: seq<Stream<Id, T>>, id: Id): (k: int)
    ensures -1 <= k < |s|
    ensures k >= 0 ==> s[k].id == id && forall j :: 0 <= j < k ==> s[j].id != id
    ensures k < 0 ==> forall j :: 0 <= j < |s| ==> s[j].id != id
  {
    if s == [] then -1
    else if s[0].id == id then 0
    else
      var k := IndexOf(s[1..], id);
      if k < 0 then -1 else k + 1
  }

  /** The ids of the streams, in list order. */
  function StreamIds<Id, T(0)>(s: seq<Stream<Id, T>>): (ids: seq<Id>)
    ensures |ids| == |s|
  {
    seq(|s|, k requires 0 <= k < |s| => s[k].id)
  }

  /** Every value slot, stream by stream, each stream's slots in list order:
      the order of the value iterator. */
  function AllValues<Id, T(0)>(s: seq<Stream<Id, T>>): seq<Node<T>>
  {
    if s == [] then [] else AllValues(s[..|s| - 1]) + s[|s| - 1].values
  }

  /** The slots held for `id` (none when the id has no stream). */
  function ValuesOf<Id(==), T(0)>(s: seq<Stream<Id, T>>, id: Id): seq<Node<T>>
  {
    var k := IndexOf(s, id);
    if k < 0 then [] else s[k].values
  }

  /** `new_value(id)` on the abstract view: the new slot goes to the front of
      the stream with `id`; without one, a stream holding just the slot is
      pushed at the head. */
  function AddValue<Id(==), T(0)>(s: seq<Stream<Id, T>>, id: Id, slot: Node<T>): seq<Stream<Id, T>>
  {
    var k := IndexOf(s, id);
    if k < 0 then [Stream(id, [slot])] + s
    else s[k := Stream(id, [slot] + s[k].values)]
  }

  ghost predicate DistinctIds<Id, T(0)>(s: seq<Stream<Id, T>>)
  {
    forall j, k :: 0 <= j < k < |s| ==> s[j].id != s[k].id
  }

  ghost predicate NonEmptyLists<Id, T(0)>(s: seq<Stream<Id, T>>)
  {
    forall k :: 0 <= k < |s| ==> s[k].values != []
  }

  /** No slot occurs twice. */
  ghost predicate NoRepeats<T(0)>(slots: seq<Node<T>>)
  {
    forall x | x in slots :: multiset(slots)[x] == 1
  }

  /** The invariant of the tally's contents. */
  ghost predicate WellFormed<Id, T(0)>(s: seq<Stream<Id, T>>)
  {
    DistinctIds(s) && NonEmptyLists(s) && NoRepeats(AllValues(s))
  }

  // ---------------------------------------------------------------------
  // Lemmas about the abstract view
  // ---------------------------------------------------------------------

  /** Flattening a list with a stream at its head. */
  lemma {:induction false} AllValuesCons<Id, T(0)>(e: Stream<Id, T>, s: seq<Stream<Id, T>>)
    ensures AllValues([e] + s) == e.values + AllValues(s)
    decreases |s|
  {
    if s != [] {
      var init := s[..|s| - 1];
      assert ([e] + s)[..|s|] == [e] + init;
      AllValuesCons(e, init);
    } else {
      assert [e][..0] == [];
    }
  }

  /** Multiset addition cancels. */
  lemma MultisetCancel<X>(a: multiset<X>, b: multiset<X>, c: multiset<X>)
    requires a + c == b + c
    ensures a == b
  {
    forall x
      ensures a[x] == b[x]
    {
      assert (a + c)[x] == (b + c)[x];
    }
  }

  /** Swapping the last part of a concatenation for another one. */
  lemma MultisetSwapLast<X>(a: seq<X>, b: seq<X>, c: seq<X>)
    ensures multiset(a + b) + multiset(c) == multiset(a + c) + multiset(b)
  {
    forall x
      ensures (multiset(a + b) + multiset(c))[x] == (multiset(a + c) + multiset(b))[x]
    {
      assert multiset(a + b)[x] == multiset(a)[x] + multiset(b)[x];
      assert multiset(a + c)[x] == multiset(a)[x] + multiset(c)[x];
    }
  }

  /** A balance between two multisets survives appending the same part. */
  lemma MultisetAppendBoth<X>(p: seq<X>, q: seq<X>, r: seq<X>, u: seq<X>, x: seq<X>)
    requires multiset(p) + multiset(r) == multiset(q) + multiset(u)
    ensures multiset(p + x) + multiset(r) == multiset(q + x) + multiset(u)
  {
    forall y
      ensures (multiset(p + x) + multiset(r))[y] == (multiset(q + x) + multiset(u))[y]
    {
      assert (multiset(p) + multiset(r))[y] == (multiset(q) + multiset(u))[y];
      assert multiset(p + x)[y] == multiset(p)[y] + multiset(x)[y];
      assert multiset(q + x)[y] == multiset(q)[y] + multiset(x)[y];
    }
  }

  /** Replacing one stream's slots changes the flattened slots by exactly the
      difference between the two lists. */
  lemma {:induction false} AllValuesUpdate<Id, T(0)>(s: seq<Stream<Id, T>>, k: int, e: Stream<Id, T>)
    requires 0 <= k < |s|
    ensures multiset(AllValues(s[k := e])) + multiset(s[k].values)
            == multiset(AllValues(s)) + multiset(e.values)
    decreases |s|
  {
    var t := s[k := e];
    var n := |s| - 1;
    if k == n {
      assert t[..n] == s[..n];
      assert AllValues(t) == AllValues(s[..n]) + e.values;
      assert AllValues(s) == AllValues(s[..n]) + s[k].values;
      MultisetSwapLast(AllValues(s[..n]), e.values, s[k].values);
    } else {
      assert t[..n] == s[..n][k := e];
      assert s[..n][k] == s[k];
      AllValuesUpdate(s[..n], k, e);
      assert t[n] == s[n];
      assert AllValues(t) == AllValues(t[..n]) + s[n].values;
      assert AllValues(s) == AllValues(s[..n]) + s[n].values;
      MultisetAppendBoth(AllValues(t[..n]), AllValues(s[..n]), s[k].values, e.values, s[n].values);
    }
  }

  /** `new_value` for an id without a stream adds exactly the new slot. */
  lemma AddStreamAddsOne<Id, T(0)>(s: seq<Stream<Id, T>>, id: Id, slot: Node<T>)
    ensures multiset(AllValues([Stream(id, [slot])] + s)) == multiset(AllValues(s)) + multiset{slot}
  {
    AllValuesCons(Stream(id, [slot]), s);
  }

  /** `new_value` for an id with a stream at `k` adds exactly the new slot. */
  lemma PushSlotAddsOne<Id, T(0)>(s: seq<Stream<Id, T>>, k: int, id: Id, slot: Node<T>)
    requires 0 <= k < |s|
    ensures multiset(AllValues(s[k := Stream(id, [slot] + s[k].values)])) == multiset(AllValues(s)) + multiset{slot}
  {
    var vs: seq<Node<T>> := s[k].values;
    AllValuesUpdate(s, k, Stream(id, [slot] + vs));
    assert multiset([slot] + vs) == multiset{slot} + multiset(vs);
    MultisetCancel(multiset(AllValues(s[k := Stream(id, [slot] + vs)])), multiset(AllValues(s)) + multiset{slot}, multiset(vs));
  }

  /** `new_value` adds exactly one slot: the new one. */
  lemma AddValueAddsOne<Id, T(0)>(s: seq<Stream<Id, T>>, id: Id, slot: Node<T>)
    ensures multiset(AllValues(AddValue(s, id, slot))) == multiset(AllValues(s)) + multiset{slot}
  {
    var k := IndexOf(s, id);
    if k < 0 {
      AddStreamAddsOne(s, id, slot);
    } else {
      PushSlotAddsOne(s, k, id, slot);
    }
  }

  /** `new_value(id)` puts the slot in front of `id`'s slots and leaves every
      other id's slots alone. */
  lemma AddValueLookup<Id, T(0)>(s: seq<Stream<Id, T>>, id: Id, slot: Node<T>, other: Id)
    ensures ValuesOf(AddValue(s, id, slot), id) == [slot] + ValuesOf(s, id)
    ensures other != id ==> ValuesOf(AddValue(s, id, slot), other) == ValuesOf(s, other)
  {
    var t := AddValue(s, id, slot);
    var k := IndexOf(s, id);
    var j := IndexOf(s, other);
    if k < 0 {
      assert t[0].id == id;
      assert IndexOf(t, id) == 0;
      assert [slot] + [] == [slot];
    } else {
      assert t[k].id == id;
      assert IndexOf(t, id) == k;
    }
    if other != id {
      if k < 0 {
        assert t[1..] == s;
        if j >= 0 {
          assert t[j + 1].id == other;
          assert IndexOf(t, other) == j + 1;
        }
      } else if j >= 0 {
        assert t[j].id == other;
        assert IndexOf(t, other) == j;
      }
    }
  }

  /** A fresh slot added to slots that were unique leaves them unique. */
  lemma AddValueKeepsUnique<Id, T(0)>(s: seq<Stream<Id, T>>, id: Id, slot: Node<T>)
    requires NoRepeats(AllValues(s)) && slot !in AllValues(s)
    ensures NoRepeats(AllValues(AddValue(s, id, slot)))
  {
    var before: seq<Node<T>> := AllValues(s);
    var after: seq<Node<T>> := AllValues(AddValue(s, id, slot));
    AddValueAddsOne(s, id, slot);
    assert multiset(before)[slot] == 0;
    forall x | x in after
      ensures multiset(after)[x] == 1
    {
      assert multiset(after)[x] == multiset(before)[x] + multiset{slot}[x];
      if x != slot {
        assert x in multiset(after);
        assert x in before;
      }
    }
  }

  /** `new_value` keeps ids distinct. */
  lemma AddValueKeepsDistinct<Id, T(0)>(s: seq<Stream<Id, T>>, id: Id, slot: Node<T>)
    requires DistinctIds(s)
    ensures DistinctIds(AddValue(s, id, slot))
  {
    var t := AddValue(s, id, slot);
    if IndexOf(s, id) < 0 {
      forall j, k | 0 <= j < k < |t|
        ensures t[j].id != t[k].id
      {
        assert t[k] == s[k - 1];
        if j > 0 {
          assert t[j] == s[j - 1];
        }
      }
    }
  }

  /** `new_value` keeps ids distinct and lists non-empty, and, when the slot is
      new, every slot unique. */
  lemma AddValueKeepsInvariant<Id, T(0)>(s: seq<Stream<Id, T>>, id: Id, slot: Node<T>)
    requires WellFormed(s) && slot !in AllValues(s)
    ensures WellFormed(AddValue(s, id, slot))
  {
    AddValueKeepsUnique(s, id, slot);
    AddValueKeepsDistinct(s, id, slot);
    AddValueKeepsNonEmpty(s, id, slot);
  }

  /** `new_value` leaves no stream without slots. */
  lemma AddValueKeepsNonEmpty<Id, T(0)>(s: seq<Stream<Id, T>>, id: Id, slot: Node<T>)
    requires NonEmptyLists(s)
    ensures NonEmptyLists(AddValue(s, id, slot))
  {
    var t := AddValue(s, id, slot);
    forall j | 0 <= j < |t|
      ensures t[j].values != []
    {
      if IndexOf(s, id) < 0 {
        if j > 0 {
          assert t[j] == s[j - 1];
        }
      } else if j != IndexOf(s, id) {
        assert t[j] == s[j];
      }
    }
  }

  /** Each slot occurs once in the flattened view: the value iterator visits
      every slot exactly once. */
  lemma VisitedOnce<Id, T(0)>(s: seq<Stream<Id, T>>, i: int, j: int)
    requires WellFormed(s)
    requires 0 <= i < j < |AllValues(s)|
    ensures AllValues(s)[i] != AllValues(s)[j]
  {
    var v := AllValues(s);
    assert v == v[..j] + v[j..];
    assert v[i] in v[..j] && v[j] in v[j..];
    assert multiset(v)[v[j]] == multiset(v[..j])[v[j]] + multiset(v[j..])[v[j]];
    assert v[j] !in v[..j];
  }

  /** A slot that no stream holds is not among the flattened slots. */
  lemma {:induction false} NotInAllValues<Id, T(0)>(s: seq<Stream<Id, T>>, x: Node<T>)
    requires forall k :: 0 <= k < |s| ==> x !in s[k].values
    ensures x !in AllValues(s)
    decreases |s|
  {
    if s != [] {
      NotInAllValues(s[..|s| - 1], x);
    }
  }

  /** The two cases of `new_value` on the abstract view (`linked` is the view
      after the search, and after the creation step when there was one; `after`
      the view once the slot is pushed) add up to `AddValue`. */
  lemma NewValueStep<Id, T(0)>(
    before: seq<Stream<Id, T>>, linked: seq<Stream<Id, T>>, after: seq<Stream<Id, T>>,
    id: Id, slot: Node<T>, k: int)
    requires WellFormed(before)
    requires IndexOf(before, id) >= 0 ==> linked == before && k == IndexOf(before, id)
    requires IndexOf(before, id) < 0 ==> linked == [Stream(id, [])] + before && k == 0
    requires 0 <= k < |linked| && linked[k].id == id
    requires after == linked[k := Stream(id, [slot] + linked[k].values)]
    requires slot !in AllValues(linked)
    ensures after == AddValue(before, id, slot) && WellFormed(after)
  {
    if IndexOf(before, id) < 0 {
      AllValuesCons(Stream(id, []), before);
      assert AllValues(linked) == [] + AllValues(before) == AllValues(before);
      assert linked[1..] == before;
      assert [slot] + [] == [slot];
      assert after == [Stream(id, [slot])] + before;
    } else {
      assert after == before[k := Stream(id, [slot] + before[k].values)];
    }
    assert slot !in AllValues(before);
    AddValueKeepsInvariant(before, id, slot);
  }

  /** Appending the slot at position `i` of stream `k` to the slots walked so
      far gives the walk up to the next position. */
  lemma WalkStep<Id, T(0)>(c: seq<Stream<Id, T>>, slots: seq<Node<T>>, k: int, i: int)
    requires 0 <= k < |c| && 0 <= i < |c[k].values|
    requires slots == AllValues(c[..k]) + c[k].values[..i]
    ensures i + 1 < |c[k].values| ==> slots + [c[k].values[i]] == AllValues(c[..k]) + c[k].values[..i + 1]
    ensures i + 1 == |c[k].values| && k + 1 < |c| ==>
              slots + [c[k].values[i]] == AllValues(c[..k + 1]) + c[k + 1].values[..0]
    ensures i + 1 == |c[k].values| && k + 1 == |c| ==> slots + [c[k].values[i]] == AllValues(c)
  {
    assert c[k].values[..i + 1] == c[k].values[..i] + [c[k].values[i]];
    if i + 1 == |c[k].values| {
      AllValuesPrefix(c, k);
      assert c[k].values[..i + 1] == c[k].values;
      assert c[..k + 1] == c[..|c|] == c ==> k + 1 == |c|;
      if k + 1 == |c| {
        assert c[..k + 1] == c;
      }
    }
  }

  /** The flattened slots of a prefix grow by one stream at a time. */
  lemma AllValuesPrefix<Id, T(0)>(s: seq<Stream<Id, T>>, k: int)
    requires 0 <= k < |s|
    ensures AllValues(s[..k + 1]) == AllValues(s[..k]) + s[k].values
  {
    assert s[..k + 1][..k] == s[..k];
  }

  // ---------------------------------------------------------------------
  // The links
  // ---------------------------------------------------------------------

  /** `head` starts the resource nodes `rs`, each linked to the next by
      `next`, the last to null. */
  ghost predicate StreamChain<Id, T(0)>(head: ResourceNode?<Id, T>, rs: seq<ResourceNode<Id, T>>)
  {
    && head == (if rs == [] then null else rs[0])
    && (forall k :: 0 <= k < |rs| - 1 ==> rs[k].next == rs[k + 1])
    && (rs != [] ==> rs[|rs| - 1].next == null)
  }

  /** `head` starts the value nodes `c`, each linked to the next by `next`,
      the last to null. */
  ghost predicate SlotChain<T(0)>(head: Node?<T>, c: seq<Node<T>>)
  {
    && head == (if c == [] then null else c[0])
    && (forall i :: 0 <= i < |c| - 1 ==> c[i].next == c[i + 1])
    && (c != [] ==> c[|c| - 1].next == null)
  }

  /** The abstract view of resource nodes `rs` whose value nodes are `cs`. */
  ghost function View<Id, T(0)>(rs: seq<ResourceNode<Id, T>>, cs: seq<seq<Node<T>>>): (c: seq<Stream<Id, T>>)
    ensures |c| == (if |cs| < |rs| then |cs| else |rs|)
  {
    var n := if |cs| < |rs| then |cs| else |rs|;
    seq(n, k requires 0 <= k < n => Stream(rs[k].id, cs[k]))
  }

  /** A new resource node with no slots, pushed at the head, is a new empty
      stream at the head of the view. */
  lemma ViewPush<Id, T(0)>(rs: seq<ResourceNode<Id, T>>, cs: seq<seq<Node<T>>>, rn: ResourceNode<Id, T>)
    requires |rs| == |cs|
    ensures View([rn] + rs, [[]] + cs) == [Stream(rn.id, [])] + View(rs, cs)
  {
  }

  /** A node linked in front of the head heads the longer chain. */
  lemma StreamChainPush<Id, T(0)>(head: ResourceNode?<Id, T>, rs: seq<ResourceNode<Id, T>>, rn: ResourceNode<Id, T>)
    requires StreamChain(head, rs) && rn.next == head
    ensures StreamChain(rn, [rn] + rs)
  {
  }

  /** Dropping the head leaves the chain headed by its `next`. */
  lemma StreamChainPop<Id, T(0)>(head: ResourceNode?<Id, T>, rs: seq<ResourceNode<Id, T>>)
    requires StreamChain(head, rs) && rs != []
    ensures StreamChain(rs[0].next, rs[1..])
  {
  }

  lemma SlotChainPush<T(0)>(head: Node?<T>, c: seq<Node<T>>, n: Node<T>)
    requires SlotChain(head, c) && n.next == head
    ensures SlotChain(n, [n] + c)
  {
  }

  lemma SlotChainPop<T(0)>(head: Node?<T>, c: seq<Node<T>>)
    requires SlotChain(head, c) && c != []
    ensures SlotChain(c[0].next, c[1..])
  {
  }

  // ---------------------------------------------------------------------
  // The iterators
  // ---------------------------------------------------------------------

  /** `StreamIterator`: walks the resource nodes. */
  class StreamIterator<Id, T(0)> {
    var rn: ResourceNode?<Id, T>

    constructor(rn: ResourceNode?<Id, T>)
      ensures this.rn == rn
    {
      this.rn := rn;
    }

    /** `operator++`. */
    method Next()
      requires rn != null
      modifies this
      ensures rn == old(rn.next)
    {
      rn := rn.next;
    }

    /** `operator*`: the stream id. */
    function Get(): Id
      requires rn != null
      reads this
    {
      rn.id
    }

    /** `operator==`. */
    predicate Equals(other: StreamIterator<Id, T>)
      reads this, other
    {
      rn == other.rn
    }
  }

  /** `ResourceNodeIterator`: walks every value slot. */
  class ValueIterator<Id, T(0)> {
    var rn: ResourceNode?<Id, T>
    var n: Node?<T>

    constructor(rn: ResourceNode?<Id, T>, n: Node?<T>)
      ensures this.rn == rn && this.n == n
    {
      this.rn := rn;
      this.n := n;
    }

    /** `operator++`: the next slot of this stream, else the first slot of the
        next stream, else the end. */
    method Next()
      requires n != null && (n.next == null ==> rn != null)
      modifies this
      ensures old(n.next) != null ==> rn == old(rn) && n == old(n.next)
      ensures old(n.next) == null && old(rn.next) != null ==> rn == old(rn.next) && n == old(rn.next.node_list)
      ensures old(n.next) == null && old(rn.next) == null ==> rn == null && n == null
    {
      if n.next != null {
        n := n.next;
      } else if rn.next != null {
        rn := rn.next;
        n := rn.node_list;
      } else {
        rn := null;
        n := null;
      }
    }

    /** `operator*`: the value slot. */
    function Get(): Node<T>
      requires n != null
      reads this
    {
      n
    }

    /** `operator==`: compares the value slots only. */
    predicate Equals(other: ValueIterator<Id, T>)
      reads this, other
    {
      n == other.n
    }
  }

  // ---------------------------------------------------------------------
  // The tally
  // ---------------------------------------------------------------------

  class Tally<Id(==), T(0)> {
    var stream_list: ResourceNode?<Id, T>
    /** The resource nodes in list order. */
    ghost var rnodes: seq<ResourceNode<Id, T>>
    /** The value nodes of each resource node, in list order. */
    ghost var chains: seq<seq<Node<T>>>

    /** The links agree with `rnodes` and `chains`. */
    ghost predicate Linked()
      reads this, rnodes
    {
      && |chains| == |rnodes|
      && StreamChain(stream_list, rnodes)
      && (forall k :: 0 <= k < |rnodes| ==> SlotChain(rnodes[k].node_list, chains[k]))
    }

    /** The streams and their slots, as the lists hold them. */
    ghost function Contents(): (c: seq<Stream<Id, T>>)
      reads this
    {
      View(rnodes, chains)
    }

    ghost predicate Valid()
      reads this, rnodes
    {
      Linked() && WellFormed(Contents())
    }

    /** Resource nodes with distinct ids are distinct objects. */
    lemma NodesDistinct(j: int, k: int)
      requires Valid() && 0 <= j < |rnodes| && 0 <= k < |rnodes| && j != k
      ensures rnodes[j] != rnodes[k]
    {
      assert Contents()[j].id == rnodes[j].id && Contents()[k].id == rnodes[k].id;
    }

    /** `GPUReducerTally()`: an empty stream list. */
    constructor()
      ensures Valid() && Contents() == []
    {
      stream_list := null;
      rnodes := [];
      chains := [];
    }

    /** `streamBegin()`. */
    method StreamBegin() returns (it: StreamIterator<Id, T>)
      ensures fresh(it) && it.rn == stream_list
    {
      it := new StreamIterator(stream_list);
    }

    /** `streamEnd()`. */
    method StreamEnd() returns (it: StreamIterator<Id, T>)
      ensures fresh(it) && it.rn == null
    {
      it := new StreamIterator(null);
    }

    /** `begin()`: the first slot of the first stream, if any. */
    method Begin() returns (it: ValueIterator<Id, T>)
      ensures fresh(it) && it.rn == stream_list
      ensures it.n == if stream_list != null then stream_list.node_list else null
    {
      it := new ValueIterator(stream_list, if stream_list != null then stream_list.node_list else null);
    }

    /** `end()`. */
    method End() returns (it: ValueIterator<Id, T>)
      ensures fresh(it) && it.rn == null && it.n == null
    {
      it := new ValueIterator(null, null);
    }

    /** `begin() == end()` holds exactly when there is no stream. */
    method BeginIsEnd() returns (b: bool)
      requires Valid()
      ensures b <==> Contents() == []
    {
      var first := Begin();
      var last := End();
      b := first.Equals(last);
      if rnodes != [] {
        assert Contents()[0].values != [];
      }
    }

    /** The search loop of `new_value`: the resource node for `id`, or null
        when there is none. */
    method FindStream(id: Id) returns (rn: ResourceNode?<Id, T>)
      requires Valid()
      ensures rn == null <==> IndexOf(Contents(), id) < 0
      ensures rn != null ==> rn == rnodes[IndexOf(Contents(), id)]
    {
      rn := stream_list;
      ghost var k := 0;
      while rn != null
        invariant 0 <= k <= |rnodes|
        invariant rn == if k < |rnodes| then rnodes[k] else null
        invariant forall j :: 0 <= j < k ==> Contents()[j].id != id
        decreases |rnodes| - k
      {
        if rn.id == id {
          break;
        }
        rn := rn.next;
        k := k + 1;
      }
      if rn != null {
        assert Contents()[k].id == id;
      }
    }

    /** The creation step of `new_value`: a resource node for `id` with an
        empty value list, pushed at the head of `stream_list`. */
    method PushStream(id: Id) returns (rn: ResourceNode<Id, T>)
      requires Linked()
      modifies this
      ensures fresh(rn) && rn.id == id && rn.node_list == null
      ensures rnodes == [rn] + old(rnodes) && chains == [[]] + old(chains)
      ensures Linked() && Contents() == [Stream(id, [])] + old(Contents())
    {
      ghost var R, C := rnodes, chains;
      rn := new ResourceNode(stream_list, id);
      StreamChainPush(stream_list, rnodes, rn);
      stream_list := rn;
      rnodes := [rn] + rnodes;
      chains := [[]] + chains;
      ViewPush(R, C, rn);
      forall j | 1 <= j < |rnodes|
        ensures chains[j] == C[j - 1] && rnodes[j] == R[j - 1]
      {
      }
    }

    /** The last step of `new_value`: a fresh value node pushed in front of the
        list of the `k`-th resource node. */
    method PushSlot(rn: ResourceNode<Id, T>, ghost k: int) returns (slot: Node<T>)
      requires Linked() && 0 <= k < |rnodes| && rn == rnodes[k]
      requires forall j :: 0 <= j < |rnodes| && j != k ==> rnodes[j] != rn
      modifies this, rn
      ensures fresh(slot) && Linked()
      ensures rnodes == old(rnodes) && chains == old(chains)[k := [slot] + old(chains)[k]]
      ensures Contents() == old(Contents())[k := Stream(rn.id, [slot] + old(Contents())[k].values)]
      ensures slot !in AllValues(old(Contents()))
    {
      ghost var before := Contents();
      ghost var C := chains;
      slot := new Node(rn.node_list);
      SlotChainPush(rn.node_list, chains[k], slot);
      rn.node_list := slot;
      chains := chains[k := [slot] + chains[k]];
      forall j | 0 <= j < |rnodes| && j != k
        ensures rnodes[j].node_list == old(rnodes[j].node_list) && chains[j] == C[j]
      {
      }
      forall i | 1 <= i < |chains[k]|
        ensures chains[k][i] == C[k][i - 1]
      {
      }
      assert Contents() == old(Contents())[k := Stream(rn.id, [slot] + old(Contents())[k].values)];
      assert forall j :: 0 <= j < |before| ==> before[j].values == C[j];
      NotInAllValues(before, slot);
    }

    /** `new_value(id)`: find the resource node for `id`, creating one at the
        head when there is none, and push a fresh value node in front of its
        list. Returns that node, whose `value` is the slot. */
    method NewValue(id: Id) returns (slot: Node<T>)
      requires Valid()
      modifies this, rnodes
      ensures Valid() && fresh(slot)
      ensures Contents() == AddValue(old(Contents()), id, slot)
      ensures IndexOf(old(Contents()), id) < 0 ==> fresh(rnodes[0]) && rnodes[1..] == old(rnodes)
      ensures IndexOf(old(Contents()), id) >= 0 ==> rnodes == old(rnodes)
    {
      ghost var before := Contents();
      ghost var k := IndexOf(before, id);
      var rn := FindStream(id);
      if rn == null {
        rn := PushStream(id);
        k := 0;
      } else {
        forall j | 0 <= j < |rnodes| && j != k
          ensures rnodes[j] != rn
        {
          NodesDistinct(j, k);
        }
      }
      ghost var linked := Contents();
      slot := PushSlot(rn, k);
      NewValueStep(before, linked, Contents(), id, slot, k);
    }

    /** `synchronize_streams()`: walks the stream iterator from `streamBegin()`
        to `streamEnd()` and synchronizes each stream. Returns the ids it
        synchronized, in order: every stream once, in list order. */
    method SynchronizeStreams() returns (synced: seq<Id>)
      requires Valid()
      ensures synced == StreamIds(Contents())
    {
      var end := StreamEnd();
      var s := StreamBegin();
      synced := [];
      ghost var k := 0;
      while !s.Equals(end)
        invariant end.rn == null && s != end
        invariant 0 <= k <= |rnodes|
        invariant s.rn == if k < |rnodes| then rnodes[k] else null
        invariant synced == StreamIds(Contents())[..k]
        decreases |rnodes| - k
      {
        synced := synced + [s.Get()];
        s.Next();
        k := k + 1;
      }
    }

    /** Where a value iterator stands: on slot `i` of stream `k`, or at the
        end when `k` is past the last stream. */
    ghost predicate At(it: ValueIterator<Id, T>, k: int, i: int)
      reads this, it
    {
      && |chains| == |rnodes| && 0 <= k <= |rnodes|
      && (k < |rnodes| ==> 0 <= i < |chains[k]| && it.rn == rnodes[k] && it.n == chains[k][i])
      && (k == |rnodes| ==> it.n == null)
    }

    /** `operator++` of the value iterator moves to the next position in
        stream-then-slot order. */
    method Advance(it: ValueIterator<Id, T>, ghost k: int, ghost i: int) returns (ghost k': int, ghost i': int)
      requires Linked() && NonEmptyLists(Contents())
      requires At(it, k, i) && k < |rnodes|
      modifies it
      ensures At(it, k', i')
      ensures i + 1 < |chains[k]| ==> k' == k && i' == i + 1
      ensures i + 1 == |chains[k]| ==> k' == k + 1 && i' == 0
    {
      assert i + 1 < |chains[k]| ==> it.n.next == chains[k][i + 1];
      assert i + 1 == |chains[k]| ==> it.n.next == null;
      assert k + 1 < |rnodes| ==> it.rn.next == rnodes[k + 1];
      assert k + 1 == |rnodes| ==> it.rn.next == null;
      it.Next();
      if i + 1 < |chains[k]| {
        k', i' := k, i + 1;
      } else {
        k', i' := k + 1, 0;
        if k' < |rnodes| {
          assert Contents()[k'].values != [];
        }
      }
    }

    /** A walk from `begin()` to `end()` with the value iterator, collecting
        what `operator*` yields: every slot, stream by stream, each stream's
        slots in list order. */
    method CollectValues() returns (slots: seq<Node<T>>)
      requires Linked() && NonEmptyLists(Contents())
      ensures slots == AllValues(Contents())
    {
      var last := End();
      var it := Begin();
      slots := [];
      ghost var k, i := 0, 0;
      ghost var c := Contents();
      assert c[..0] == [];
      if rnodes != [] {
        assert c[0].values != [];
      }
      while !it.Equals(last)
        invariant last.n == null && it != last
        invariant At(it, k, i)
        invariant k < |c| ==> slots == AllValues(c[..k]) + c[k].values[..i]
        invariant k == |c| ==> slots == AllValues(c)
        decreases |c| - k, if k < |c| then |c[k].values| - i else 0
      {
        WalkStep(c, slots, k, i);
        slots := slots + [it.Get()];
        k, i := Advance(it, k, i);
      }
    }

    /** The inner loop of `free_list`: the value nodes of the head resource
        node are unlinked and released one by one, in list order. */
    method FreeNodes(rn: ResourceNode<Id, T>) returns (ghost released: seq<Node<T>>)
      requires Linked() && rnodes != [] && rn == rnodes[0]
      requires forall j :: 0 < j < |rnodes| ==> rnodes[j] != rn
      modifies this, rn
      ensures Linked() && rnodes == old(rnodes) && chains == old(chains)[0 := []]
      ensures released == old(chains)[0] && rn.node_list == null
    {
      ghost var C := chains;
      released := [];
      while rn.node_list != null
        invariant Linked() && rnodes == old(rnodes)
        invariant 0 <= |released| <= |C[0]|
        invariant chains == C[0 := C[0][|released|..]] && released == C[0][..|released|]
        decreases |chains[0]|
      {
        var n := rn.node_list;
        SlotChainPop(n, chains[0]);
        rn.node_list := n.next;
        released := released + [n];
        chains := chains[0 := chains[0][1..]];
        assert C[0][..|released|] == C[0][..|released| - 1] + [n];
      }
      assert C[0][..|released|] == C[0];
    }

    /** The rest of an outer step of `free_list`: the emptied head resource
        node is unlinked and released. */
    method PopStream()
      requires Linked() && rnodes != []
      modifies this
      ensures Linked() && rnodes == old(rnodes)[1..] && chains == old(chains)[1..]
    {
      StreamChainPop(stream_list, rnodes);
      stream_list := stream_list.next;
      rnodes := rnodes[1..];
      chains := chains[1..];
    }

    /** `free_list()`, also run by the destructor: releases every value node
        and every resource node, stream by stream, and leaves the list empty.
        Returns the released value nodes, in the order they were released. */
    method FreeList() returns (ghost released: seq<Node<T>>)
      requires Valid()
      modifies this, rnodes
      ensures Valid() && Contents() == [] && stream_list == null
      ensures released == AllValues(old(Contents()))
    {
      ghost var R, H, C := rnodes, chains, Contents();
      ghost var d := 0;
      released := [];
      assert C[..0] == [];
      while stream_list != null
        invariant Linked()
        invariant 0 <= d <= |R| && rnodes == R[d..] && chains == H[d..]
        invariant released == AllValues(C[..d])
        decreases |rnodes|
      {
        var rn := stream_list;
        forall j | 0 < j < |rnodes|
          ensures rnodes[j] != rn
        {
          assert C[d + j].id == R[d + j].id && C[d].id == R[d].id;
        }
        var here := FreeNodes(rn);
        PopStream();
        AllValuesPrefix(C, d);
        released := released + here;
        d := d + 1;
      }
      assert C[..d] == C;
    }
  }
}
