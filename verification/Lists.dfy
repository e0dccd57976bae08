/** The circular doubly linked lists of include/misc/list.h. Nodes are addresses; a list is a head
    node and the sequence of entries behind it. */
module Lists {

  datatype Node = Node(next: int, prev: int)

  type Links = map<int, Node>

  /** Entry i of the list, or its head before the first and after the last. */
  function At(h: int, ns: seq<int>, i: int): int {
    if 0 <= i < |ns| then ns[i] else h
  }

  /** The links of the node at position i are its neighbours. */
  ghost predicate NodeAt(k: Links, h: int, ns: seq<int>, i: int) {
    At(h, ns, i) in k &&
    k[At(h, ns, i)] == Node(if i == |ns| then At(h, ns, 0) else At(h, ns, i + 1),
                            if i == |ns| then At(h, ns, |ns| - 1) else At(h, ns, i - 1))
  }

  /** h heads a well-formed ring whose entries are ns, in order. Position |ns| is the head. */
  ghost predicate Ring(k: Links, h: int, ns: seq<int>) {
    && (forall i {:trigger NodeAt(k, h, ns, i)} :: 0 <= i <= |ns| ==> NodeAt(k, h, ns, i))
    && h !in ns
    && (forall i, j :: 0 <= i < j < |ns| ==> ns[i] != ns[j])
  }

  // ---------------------------------------------------------------- the operations on links

  /** INIT_LIST_HEAD. */
  function Init(k: Links, h: int): Links {
    k[h := Node(h, h)]
  }

  /** __list_add: four writes, in this order. */
  function Insert(k: Links, e: int, prev: int, next: int): Links
    requires prev in k && next in k && e in k
  {
    var k1 := k[next := k[next].(prev := e)];
    var k2 := k1[e := k1[e].(next := next)];
    var k3 := k2[e := k2[e].(prev := prev)];
    k3[prev := k3[prev].(next := e)]
  }

  /** __list_del. */
  function Bridge(k: Links, prev: int, next: int): Links
    requires prev in k && next in k
  {
    var k1 := k[next := k[next].(prev := prev)];
    k1[prev := k1[prev].(next := next)]
  }

  /** The two links around position i. */
  lemma Around(k: Links, h: int, ns: seq<int>, i: nat)
    requires Ring(k, h, ns) && i < |ns|
    ensures ns[i] in k && k[ns[i]] == Node(At(h, ns, i + 1), At(h, ns, i - 1))
    ensures At(h, ns, i + 1) in k && At(h, ns, i - 1) in k
  {
    assert NodeAt(k, h, ns, i);
    assert NodeAt(k, h, ns, i + 1);
    assert NodeAt(k, h, ns, if i == 0 then |ns| else i - 1);
  }

  lemma HeadLinks(k: Links, h: int, ns: seq<int>)
    requires Ring(k, h, ns)
    ensures h in k && k[h] == Node(At(h, ns, 0), At(h, ns, |ns| - 1)) && At(h, ns, |ns| - 1) in k
  {
    assert NodeAt(k, h, ns, |ns|);
    assert |ns| > 0 ==> NodeAt(k, h, ns, |ns| - 1);
  }

  lemma InitRing(k: Links, h: int)
    ensures Ring(Init(k, h), h, [])
  {}

  /** list_add_tail puts an entry that is in no list at the end of the ring. */
  lemma AddTailRing(k: Links, h: int, ns: seq<int>, e: int)
    requires Ring(k, h, ns) && e in k && e != h && e !in ns
    ensures h in k && k[h].prev in k
    ensures Ring(Insert(k, e, k[h].prev, h), h, ns + [e])
  {
    HeadLinks(k, h, ns);
    var k', ns' := Insert(k, e, k[h].prev, h), ns + [e];
    forall i | 0 <= i <= |ns'| ensures NodeAt(k', h, ns', i) {
      if i < |ns| {
        assert NodeAt(k, h, ns, i);
        assert ns'[i] == ns[i] && (i < |ns| - 1 ==> ns[i] != ns[|ns| - 1]);
      }
    }
  }

  function Without<T>(ns: seq<T>, i: nat): seq<T>
    requires i < |ns|
  {
    seq(|ns| - 1, j requires 0 <= j < |ns| - 1 => if j < i then ns[j] else ns[j + 1])
  }

  /** Unlinking the entry at position i, whatever then becomes of its own links. */
  lemma DelRing(k: Links, h: int, ns: seq<int>, i: nat, own: Node)
    requires Ring(k, h, ns) && i < |ns|
    ensures ns[i] in k && k[ns[i]].prev in k && k[ns[i]].next in k
    ensures Ring(Bridge(k, k[ns[i]].prev, k[ns[i]].next)[ns[i] := own], h, Without(ns, i))
  {
    Around(k, h, ns, i);
    var k', ns' := Bridge(k, k[ns[i]].prev, k[ns[i]].next)[ns[i] := own], Without(ns, i);
    forall j | 0 <= j <= |ns'| ensures NodeAt(k', h, ns', j) {
      var m := if j < i then j else j + 1;
      assert NodeAt(k, h, ns, m);
      DelNode(k, h, ns, i, own, j);
    }
  }

  lemma DelNode(k: Links, h: int, ns: seq<int>, i: nat, own: Node, j: nat)
    requires i < |ns| && j <= |ns| - 1 && h !in ns && forall a, b :: 0 <= a < b < |ns| ==> ns[a] != ns[b]
    requires ns[i] in k && k[ns[i]] == Node(At(h, ns, i + 1), At(h, ns, i - 1))
    requires At(h, ns, i + 1) in k && At(h, ns, i - 1) in k
    requires NodeAt(k, h, ns, if j < i then j else j + 1)
    ensures NodeAt(Bridge(k, k[ns[i]].prev, k[ns[i]].next)[ns[i] := own], h, Without(ns, i), j)
  {
    var m := if j < i then j else j + 1;
    assert At(h, Without(ns, i), j) == At(h, ns, m);
    assert m < |ns| ==> ns[m] != ns[i];
  }

  /** A ring does not notice changes to nodes that are not its own. */
  lemma RingFrame(k: Links, k': Links, h: int, ns: seq<int>)
    requires Ring(k, h, ns)
    requires h in k' && h in k && k'[h] == k[h]
    requires forall n :: n in ns && n in k ==> n in k' && k'[n] == k[n]
    ensures Ring(k', h, ns)
  {
    forall i | 0 <= i <= |ns| ensures NodeAt(k', h, ns, i) {
      assert NodeAt(k, h, ns, i);
      assert i < |ns| ==> ns[i] in ns;
    }
  }

  // ---------------------------------------------------------------- the code

  class ListStore {
    var links: Links

    constructor ()
      ensures links == map[]
    {
      links := map[];
    }

    /** INIT_LIST_HEAD. */
    method InitListHead(h: int)
      modifies this
      ensures links == Init(old(links), h)
    {
      links := links[h := Node(h, h)];
    }

    method ListAdd(e: int, prev: int, next: int)
      requires prev in links && next in links && e in links
      modifies this
      ensures links == Insert(old(links), e, prev, next)
    {
      links := links[next := links[next].(prev := e)];
      links := links[e := links[e].(next := next)];
      links := links[e := links[e].(prev := prev)];
      links := links[prev := links[prev].(next := e)];
    }

    /** list_add_tail. */
    method ListAddTail(e: int, h: int, ghost ns: seq<int>)
      requires Ring(links, h, ns) && e in links && e != h && e !in ns
      modifies this
      ensures Ring(links, h, ns + [e])
      ensures Untouched(old(links), links, {h, e} + Set(ns))
    {
      AddTailRing(links, h, ns, e);
      HeadLinks(links, h, ns);
      ListAdd(e, links[h].prev, h);
    }

    method UnlinkEntry(e: int, own: Node, ghost h: int, ghost ns: seq<int>, ghost i: nat)
      requires Ring(links, h, ns) && i < |ns| && ns[i] == e
      modifies this
      ensures Ring(links, h, Without(ns, i)) && e in links && links[e] == own
      ensures Untouched(old(links), links, {h} + Set(ns))
    {
      Around(links, h, ns, i);
      DelRing(links, h, ns, i, own);
      var prev, next := links[e].prev, links[e].next;
      links := links[next := links[next].(prev := prev)];
      links := links[prev := links[prev].(next := next)];
      links := links[e := own];
    }

    /** list_del: the entry's own links become NULL. */
    method ListDel(e: int, ghost h: int, ghost ns: seq<int>, ghost i: nat)
      requires Ring(links, h, ns) && i < |ns| && ns[i] == e
      modifies this
      ensures Ring(links, h, Without(ns, i)) && e in links && links[e] == Node(0, 0)
      ensures Untouched(old(links), links, {h} + Set(ns))
    {
      UnlinkEntry(e, Node(0, 0), h, ns, i);
    }

    /** list_del_init: the entry becomes an empty list of its own. */
    method ListDelInit(e: int, ghost h: int, ghost ns: seq<int>, ghost i: nat)
      requires Ring(links, h, ns) && i < |ns| && ns[i] == e
      modifies this
      ensures Ring(links, h, Without(ns, i)) && e in links && Ring(links, e, [])
      ensures Untouched(old(links), links, {h} + Set(ns))
    {
      UnlinkEntry(e, Node(e, e), h, ns, i);
    }

    /** list_move_tail: list_del, then list_add_tail to another list. */
    method ListMoveTail(e: int, h2: int, ghost h: int, ghost ns: seq<int>, ghost i: nat, ghost ns2: seq<int>)
      requires Ring(links, h, ns) && i < |ns| && ns[i] == e
      requires Ring(links, h2, ns2) && ({h} + Set(ns)) !! ({h2} + Set(ns2))
      modifies this
      ensures Ring(links, h, Without(ns, i)) && Ring(links, h2, ns2 + [e])
      ensures Untouched(old(links), links, {h} + Set(ns) + {h2} + Set(ns2))
    {
      ghost var k := links;
      assert e in Set(ns);
      HeadLinks(links, h2, ns2);
      ListDel(e, h, ns, i);
      RingFrame(k, links, h2, ns2);
      ghost var k1 := links;
      HeadLinks(links, h, Without(ns, i));
      ListAddTail(e, h2, ns2);
      WithoutSubset(ns, i);
      RingFrame(k1, links, h, Without(ns, i));
    }

    /** list_empty. */
    method ListEmpty(h: int, ghost ns: seq<int>) returns (r: bool)
      requires Ring(links, h, ns)
      ensures r <==> ns == []
    {
      HeadLinks(links, h, ns);
      r := links[h].next == h;
    }

    /** The node list_first_entry starts from. */
    method First(h: int, ghost ns: seq<int>) returns (r: int)
      requires Ring(links, h, ns) && ns != []
      ensures r == ns[0]
    {
      HeadLinks(links, h, ns);
      r := links[h].next;
    }
  }

  lemma WithoutSubset(ns: seq<int>, i: nat)
    requires i < |ns| && forall a, b :: 0 <= a < b < |ns| ==> ns[a] != ns[b]
    ensures forall n :: n in Without(ns, i) ==> n in ns && n != ns[i]
  {}

  ghost function Set(ns: seq<int>): (r: set<int>)
    ensures forall n :: n in r <==> n in ns
  {
    set n | n in ns
  }

  /** Only the given nodes may have changed. */
  ghost predicate Untouched(k: Links, k': Links, s: set<int>) {
    forall n :: n in k && n !in s ==> n in k' && k'[n] == k[n]
  }
}
