/** The intrusive circular lists of include/algo/list.h.

    A ring is the sequence of nodes met by following next from one of them; a list is a ring seen from its head. Each
    operation may change the nodes it names in its modifies clause and no others. */
module ListHead {
  class ListNode {
    var next: ListNode?
    var prev: ListNode?

    constructor ()
    {
      next, prev := null, null;
    }
  }

  function After(s: seq<ListNode>, i: nat): ListNode
    requires i < |s|
  {
    if i + 1 < |s| then s[i + 1] else s[0]
  }

  function Before(s: seq<ListNode>, i: nat): ListNode
    requires i < |s|
  {
    if i == 0 then s[|s| - 1] else s[i - 1]
  }

  ghost predicate Distinct(s: seq<ListNode>) {
    forall i, j :: 0 <= i < j < |s| ==> s[i] != s[j]
  }

  /** next leads round s, prev leads round it the other way. */
  ghost predicate Ring(s: seq<ListNode>)
    reads s
  {
    && s != [] && Distinct(s)
    && (forall i {:trigger s[i].next} :: 0 <= i < |s| ==> s[i].next == After(s, i))
    && (forall i {:trigger s[i].prev} :: 0 <= i < |s| ==> s[i].prev == Before(s, i))
  }

  /** The links within a stretch of a ring. */
  ghost predicate Chain(s: seq<ListNode>)
    reads s
  {
    && (forall i {:trigger s[i].next} :: 0 <= i < |s| - 1 ==> s[i].next == s[i + 1])
    && (forall i {:trigger s[i].prev} :: 0 < i < |s| ==> s[i].prev == s[i - 1])
  }

  lemma RingIff(s: seq<ListNode>)
    requires s != []
    ensures Ring(s) <==>
            Distinct(s) && Chain(s) && s[|s| - 1].next == s[0] && s[0].prev == s[|s| - 1]
  {
  }

  lemma ChainJoin(a: seq<ListNode>, b: seq<ListNode>)
    requires Chain(a) && Chain(b)
    requires a != [] && b != [] ==> a[|a| - 1].next == b[0] && b[0].prev == a[|a| - 1]
    ensures Chain(a + b)
  {
    var s := a + b;
    forall i | 0 <= i < |s| - 1 ensures s[i].next == s[i + 1] {
      if i >= |a| {
        assert s[i] == b[i - |a|];
      }
    }
    forall i | 0 < i < |s| ensures s[i].prev == s[i - 1] {
      if i > |a| {
        assert s[i] == b[i - |a|];
      }
    }
  }

  ghost predicate IsList(head: ListNode, xs: seq<ListNode>)
    reads head, xs
  {
    Ring([head] + xs)
  }

  /** The sequence is determined by the links: a ring seen from a node is one sequence only. */
  lemma RingUnique(s: seq<ListNode>, t: seq<ListNode>)
    requires Ring(s) && Ring(t) && s[0] == t[0]
    ensures s == t
  {
    var i := 0;
    while i + 1 < |s| && i + 1 < |t|
      invariant i < |s| && i < |t| && forall k :: 0 <= k <= i ==> s[k] == t[k]
    {
      assert s[i].next == After(s, i) && t[i].next == After(t, i);
      i := i + 1;
    }
    assert s[i].next == After(s, i) && t[i].next == After(t, i);
  }

  method InitListHead(list: ListNode)
    modifies list
    ensures IsList(list, [])
  {
    list.next := list;
    list.prev := list;
  }

  function Inserted(s: seq<ListNode>, k: nat, n: ListNode): seq<ListNode>
    requires k <= |s|
  {
    s[..k] + [n] + s[k..]
  }

  function Removed(s: seq<ListNode>, k: nat): seq<ListNode>
    requires k < |s|
  {
    s[..k] + s[k + 1..]
  }

  /** __list_add: n between two neighbours, in the ring s behind its element k. */
  method ListAddBetween(n: ListNode, prev: ListNode, next: ListNode, ghost s: seq<ListNode>, ghost k: nat)
    requires Ring(s) && n !in s && k < |s| && prev == s[k] && next == After(s, k)
    modifies n, prev, next
    ensures Ring(Inserted(s, k + 1, n))
  {
    ghost var t, m := Inserted(s, k + 1, n), if k + 1 < |s| then k + 1 else 0;
    RingIs(s);
    OthersDiffer(s, k);
    OthersDiffer(s, m);
    InsertedDistinct(s, k + 1, n);
    assert next == s[m];
    hide Ring, Distinct, Inserted, After, Before;
    next.prev := n;
    n.next := next;
    n.prev := prev;
    prev.next := n;
    forall i | 0 <= i < |t| ensures t[i].next == After(t, i) && t[i].prev == Before(t, i) {
      AroundInserted(s, k, n, i);
    }
    RingFrom(t);
  }

  /** The neighbours in a ring with n behind element k. */
  lemma AroundInserted(s: seq<ListNode>, k: nat, n: ListNode, i: nat)
    requires k < |s| && i <= |s|
    ensures var t, m := Inserted(s, k + 1, n), if k + 1 < |s| then k + 1 else 0;
      if i == k + 1 then t[i] == n && After(t, i) == s[m] && Before(t, i) == s[k]
      else
        var j := if i <= k then i else i - 1;
        && t[i] == s[j]
        && After(t, i) == (if j == k then n else After(s, j))
        && Before(t, i) == (if j == m then n else Before(s, j))
  {
  }

  lemma RingIs(s: seq<ListNode>)
    requires Ring(s)
    ensures Distinct(s) && forall i :: 0 <= i < |s| ==> s[i].next == After(s, i) && s[i].prev == Before(s, i)
  {
  }

  lemma RingFrom(s: seq<ListNode>)
    requires s != [] && Distinct(s)
    requires forall i :: 0 <= i < |s| ==> s[i].next == After(s, i) && s[i].prev == Before(s, i)
    ensures Ring(s)
  {
  }

  lemma OthersDiffer(s: seq<ListNode>, k: nat)
    requires Distinct(s) && k < |s|
    ensures forall i :: 0 <= i < |s| && i != k ==> s[i] != s[k]
  {
  }

  lemma InsertedDistinct(s: seq<ListNode>, k: nat, n: ListNode)
    requires Distinct(s) && n !in s && k <= |s|
    ensures Distinct(Inserted(s, k, n))
  {
    var t := Inserted(s, k, n);
    forall i, j | 0 <= i < j < |t| ensures t[i] != t[j] {
      assert i != k ==> t[i] == s[if i < k then i else i - 1];
      assert j != k ==> t[j] == s[if j < k then j else j - 1];
    }
  }

  /** list_add: right behind the head. */
  method ListAdd(n: ListNode, head: ListNode, ghost xs: seq<ListNode>)
    requires IsList(head, xs) && n != head && n !in xs
    modifies n, head, head.next
    ensures IsList(head, [n] + xs)
  {
    ghost var s := [head] + xs;
    assert s[0].next == After(s, 0);
    ListAddBetween(n, head, head.next, s, 0);
    assert Inserted(s, 1, n) == [head] + ([n] + xs);
  }

  /** list_add_tail: right before the head. */
  method ListAddTail(n: ListNode, head: ListNode, ghost xs: seq<ListNode>)
    requires IsList(head, xs) && n != head && n !in xs
    modifies n, head, head.prev
    ensures IsList(head, xs + [n])
  {
    ghost var s := [head] + xs;
    assert s[0].prev == Before(s, 0);
    ListAddBetween(n, head.prev, head, s, |s| - 1);
    assert Inserted(s, |s|, n) == [head] + (xs + [n]);
  }

  /** __list_del: the neighbours of element k of the ring s are joined; the element keeps its links. */
  method ListDelBetween(prev: ListNode, next: ListNode, ghost s: seq<ListNode>, ghost k: nat)
    requires Ring(s) && k < |s| && prev == s[k].prev && next == s[k].next
    modifies prev, next
    ensures |s| > 1 ==> Ring(Removed(s, k)) && s[k].next == old(s[k].next) && s[k].prev == old(s[k].prev)
    ensures |s| == 1 ==> Ring(s)
  {
    assert s[k].prev == Before(s, k) && s[k].next == After(s, k);
    next.prev := prev;
    prev.next := next;
    ghost var t := Removed(s, k);
    forall i | 0 <= i < |t| ensures t[i].next == After(t, i) && t[i].prev == Before(t, i) {
      if i < k {
        assert t[i] == s[i];
      } else {
        assert t[i] == s[i + 1];
      }
    }
  }

  /** list_del */
  method ListDel(entry: ListNode, ghost s: seq<ListNode>, ghost k: nat)
    requires Ring(s) && |s| > 1 && k < |s| && entry == s[k]
    modifies entry, entry.prev, entry.next
    ensures Ring(Removed(s, k)) && entry.next == null && entry.prev == null
  {
    assert s[k].prev == Before(s, k) && s[k].next == After(s, k);
    ListDelBetween(entry.prev, entry.next, s, k);
    Elsewhere(s, k);
    entry.next := null;
    entry.prev := null;
  }

  lemma Elsewhere(s: seq<ListNode>, k: nat)
    requires Distinct(s) && k < |s|
    ensures s[k] !in Removed(s, k)
  {
  }

  /** list_del_init */
  method ListDelInit(entry: ListNode, ghost s: seq<ListNode>, ghost k: nat)
    requires Ring(s) && k < |s| && entry == s[k]
    modifies entry, entry.prev, entry.next
    ensures |s| > 1 ==> Ring(Removed(s, k))
    ensures IsList(entry, [])
  {
    assert s[k].prev == Before(s, k) && s[k].next == After(s, k);
    ListDelBetween(entry.prev, entry.next, s, k);
    Elsewhere(s, k);
    InitListHead(entry);
  }

  /** list_replace: the new node takes the old one's place, also when the old one was alone. */
  method ListReplace(old_: ListNode, n: ListNode, ghost s: seq<ListNode>, ghost k: nat)
    requires Ring(s) && k < |s| && old_ == s[k] && n !in s
    modifies n, old_, old_.next, old_.prev
    ensures Ring(s[k := n])
    ensures |s| > 1 ==> old_.next == old(old_.next) && old_.prev == old(old_.prev)
  {
    assert s[k].prev == Before(s, k) && s[k].next == After(s, k);
    n.next := old_.next;
    n.next.prev := n;
    n.prev := old_.prev;
    n.prev.next := n;
    ghost var t := s[k := n];
    forall i | 0 <= i < |t| ensures t[i].next == After(t, i) && t[i].prev == Before(t, i) {
      if i != k {
        assert t[i] == s[i];
      }
    }
  }

  /** list_replace_init */
  method ListReplaceInit(old_: ListNode, n: ListNode, ghost s: seq<ListNode>, ghost k: nat)
    requires Ring(s) && k < |s| && old_ == s[k] && n !in s
    modifies n, old_, old_.next, old_.prev
    ensures Ring(s[k := n]) && IsList(old_, [])
  {
    assert s[k].prev == Before(s, k) && s[k].next == After(s, k);
    ListReplace(old_, n, s, k);
    assert old_ !in s[k := n];
    InitListHead(old_);
  }

  ghost predicate Disjoint(s: seq<ListNode>, t: seq<ListNode>) {
    forall n :: n in s ==> n !in t
  }

  /** A ring keeps its links when only nodes outside it change. */
  twostate lemma RingKept(s: seq<ListNode>)
    requires old(Ring(s)) && forall n :: n in s ==> n.next == old(n.next) && n.prev == old(n.prev)
    ensures Ring(s)
  {
    forall i | 0 <= i < |s| ensures s[i].next == After(s, i) && s[i].prev == Before(s, i) {
      assert s[i] in s;
      assert old(s[i].next) == After(s, i) && old(s[i].prev) == Before(s, i);
    }
  }

  lemma Neighbours(t: seq<ListNode>, k: nat)
    requires Ring(t) && k < |t|
    ensures t[k].next == After(t, k) && t[k].prev == Before(t, k)
    ensures After(t, k) in t && Before(t, k) in t
  {
  }

  /** The ends of a list without its element k. */
  lemma RemovedEnds(head: ListNode, xs: seq<ListNode>, k: nat)
    requires Distinct([head] + xs) && k < |xs|
    ensures var s := [head] + xs; var r := Removed(s, k + 1);
      && r == [head] + Removed(xs, k) && xs[k] != head && xs[k] !in r
      && After(r, 0) == (if k == 0 then After(s, k + 1) else After(s, 0))
      && Before(r, 0) == (if k == |xs| - 1 then Before(s, k + 1) else Before(s, 0))
  {
    Elsewhere([head] + xs, k + 1);
  }

  /** Taking element k of the list's own ring away. */
  method TakeOutOwn(entry: ListNode, head: ListNode, ghost xs: seq<ListNode>, ghost k: nat)
    requires IsList(head, xs) && k < |xs| && entry == xs[k]
    modifies entry.prev, entry.next
    ensures IsList(head, Removed(xs, k)) && entry != head && entry !in Removed(xs, k)
    ensures head.next == (if k == 0 then old(entry.next) else old(head.next))
    ensures head.prev == (if k == |xs| - 1 then old(entry.prev) else old(head.prev))
  {
    ghost var s := [head] + xs;
    RemovedEnds(head, xs, k);
    assert s[0] == head && s[k + 1] == entry;
    Neighbours(s, k + 1);
    Neighbours(s, 0);
    hide Ring, Removed, Distinct, After, Before;
    ListDelBetween(entry.prev, entry.next, s, k + 1);
    ghost var r := Removed(s, k + 1);
    assert r[0] == head && forall n :: n in Removed(xs, k) ==> n in r;
    Neighbours(r, 0);
  }

  /** Taking element k of another ring away. */
  method TakeOutOther(entry: ListNode, head: ListNode, ghost xs: seq<ListNode>, ghost t: seq<ListNode>, ghost k: nat)
    requires IsList(head, xs) && Ring(t) && k < |t| && Disjoint(t, [head] + xs) && entry == t[k]
    modifies entry.prev, entry.next
    ensures IsList(head, xs) && entry !in [head] + xs
    ensures |t| > 1 ==> Ring(Removed(t, k))
    ensures head.next == old(head.next) && head.prev == old(head.prev)
  {
    Neighbours(t, k);
    ListDelBetween(entry.prev, entry.next, t, k);
    assert entry in t;
    assert head in [head] + xs;
    RingKept([head] + xs);
  }

  // list_move and list_move_tail serve two situations, stated separately: the entry is in the list it is moved within,
  // or in a ring that has no node in common with the list it is moved to.

  /** list_move: an entry of the list goes to its front. */
  method ListMoveWithin(entry: ListNode, head: ListNode, ghost xs: seq<ListNode>, ghost k: nat)
    requires IsList(head, xs) && k < |xs| && entry == xs[k]
    modifies entry, entry.prev, entry.next, head, head.next
    ensures IsList(head, [entry] + Removed(xs, k))
  {
    TakeOutOwn(entry, head, xs, k);
    ListAdd(entry, head, Removed(xs, k));
  }

  /** list_move: an entry of another ring goes to the front of the list. */
  method ListMoveAcross(entry: ListNode, head: ListNode, ghost xs: seq<ListNode>, ghost t: seq<ListNode>, ghost k: nat)
    requires IsList(head, xs) && Ring(t) && k < |t| && Disjoint(t, [head] + xs) && entry == t[k]
    modifies entry, entry.prev, entry.next, head, head.next
    ensures IsList(head, [entry] + xs)
    ensures |t| > 1 ==> Ring(Removed(t, k))
  {
    TakeOutOther(entry, head, xs, t, k);
    label Taken:
    Neighbours([head] + xs, 0);
    Elsewhere(t, k);
    assert ([head] + xs)[0] == head;
    ListAdd(entry, head, xs);
    if |t| > 1 {
      RingKept@Taken(Removed(t, k));
    }
  }

  /** list_move_tail: an entry of the list goes to its end. */
  method ListMoveTailWithin(entry: ListNode, head: ListNode, ghost xs: seq<ListNode>, ghost k: nat)
    requires IsList(head, xs) && k < |xs| && entry == xs[k]
    modifies entry, entry.prev, entry.next, head, head.prev
    ensures IsList(head, Removed(xs, k) + [entry])
  {
    TakeOutOwn(entry, head, xs, k);
    ListAddTail(entry, head, Removed(xs, k));
  }

  /** list_move_tail: an entry of another ring goes to the end of the list. */
  method ListMoveTailAcross(entry: ListNode, head: ListNode, ghost xs: seq<ListNode>, ghost t: seq<ListNode>,
                            ghost k: nat)
    requires IsList(head, xs) && Ring(t) && k < |t| && Disjoint(t, [head] + xs) && entry == t[k]
    modifies entry, entry.prev, entry.next, head, head.prev
    ensures IsList(head, xs + [entry])
    ensures |t| > 1 ==> Ring(Removed(t, k))
  {
    TakeOutOther(entry, head, xs, t, k);
    label Taken:
    Neighbours([head] + xs, 0);
    Elsewhere(t, k);
    assert ([head] + xs)[0] == head;
    ListAddTail(entry, head, xs);
    if |t| > 1 {
      RingKept@Taken(Removed(t, k));
    }
  }

  /** list_empty */
  predicate ListEmpty(head: ListNode)
    reads head
  {
    head.next == head
  }

  /** list_is_singular */
  predicate ListIsSingular(head: ListNode)
    reads head
  {
    !ListEmpty(head) && head.next == head.prev
  }

  /** list_is_last */
  predicate ListIsLast(list: ListNode, head: ListNode)
    reads list
  {
    list.next == head
  }

  /** What the tests on a list answer. */
  lemma ListTests(head: ListNode, xs: seq<ListNode>)
    requires IsList(head, xs)
    ensures ListEmpty(head) <==> xs == []
    ensures ListIsSingular(head) <==> |xs| == 1
    ensures forall k :: 0 <= k < |xs| ==> (ListIsLast(xs[k], head) <==> k == |xs| - 1)
  {
    var s := [head] + xs;
    assert s[0].next == After(s, 0) && s[0].prev == Before(s, 0);
    forall k | 0 <= k < |xs| ensures ListIsLast(xs[k], head) <==> k == |xs| - 1 {
      assert s[k + 1].next == After(s, k + 1);
      if k + 1 < |xs| {
        assert s[0] != s[k + 2];
      }
    }
  }

  // Cutting and splicing

  /** __list_cut_position: the elements up to and including entry go to the new list. */
  method CutBetween(list: ListNode, head: ListNode, entry: ListNode, ghost xs: seq<ListNode>, ghost k: nat)
    requires IsList(head, xs) && k < |xs| && entry == xs[k] && list != head && list !in xs
    modifies list, head, head.next, entry, entry.next
    ensures IsList(list, xs[..k + 1]) && IsList(head, xs[k + 1..])
  {
    ListLinks(head, xs);
    Different(head, xs, k);
    hide Ring, Distinct;
    var newFirst := entry.next;
    list.next := head.next;
    list.next.prev := list;
    list.prev := entry;
    entry.next := list;
    head.next := newFirst;
    newFirst.prev := head;
    CutRings(list, head, xs, k);
  }

  /** The links of a list that is not empty, by its elements. */
  lemma ListLinks(head: ListNode, xs: seq<ListNode>)
    requires IsList(head, xs) && xs != []
    ensures Distinct([head] + xs) && head.next == xs[0] && head.prev == xs[|xs| - 1]
    ensures forall i {:trigger xs[i].next} :: 0 <= i < |xs| ==> xs[i].next == if i + 1 < |xs| then xs[i + 1] else head
    ensures forall i {:trigger xs[i].prev} :: 0 <= i < |xs| ==> xs[i].prev == if i > 0 then xs[i - 1] else head
  {
    var s := [head] + xs;
    assert s[0].next == After(s, 0) && s[0].prev == Before(s, 0);
    forall i {:trigger xs[i].next} | 0 <= i < |xs|
      ensures xs[i].next == (if i + 1 < |xs| then xs[i + 1] else head)
    {
      assert s[i + 1].next == After(s, i + 1);
    }
    forall i {:trigger xs[i].prev} | 0 <= i < |xs|
      ensures xs[i].prev == (if i > 0 then xs[i - 1] else head)
    {
      assert s[i + 1].prev == Before(s, i + 1);
    }
  }

  lemma Different(head: ListNode, xs: seq<ListNode>, k: nat)
    requires Distinct([head] + xs) && k < |xs|
    ensures forall i {:trigger xs[i]} :: 0 <= i < |xs| ==> xs[i] != head
    ensures forall i {:trigger xs[i]} :: 0 <= i < |xs| && i != k ==> xs[i] != xs[k]
    ensures forall i {:trigger xs[i]} :: 0 < i < |xs| ==> xs[i] != xs[0]
    ensures k + 1 < |xs| ==> forall i {:trigger xs[i]} :: 0 <= i < |xs| && i != k + 1 ==> xs[i] != xs[k + 1]
  {
    var s := [head] + xs;
    forall i | 0 <= i < |xs|
      ensures xs[i] != head && (i != k ==> xs[i] != xs[k]) && (i != 0 ==> xs[i] != xs[0])
      ensures k + 1 < |xs| && i != k + 1 ==> xs[i] != xs[k + 1]
    {
      assert s[i + 1] == xs[i] && s[k + 1] == xs[k] && s[1] == xs[0] && s[0] == head;
      assert k + 1 < |xs| ==> s[k + 2] == xs[k + 1];
    }
  }

  /** Links that are right element by element make a list. */
  lemma LinkedList(head: ListNode, xs: seq<ListNode>)
    requires Distinct([head] + xs) && xs != [] && head.next == xs[0] && head.prev == xs[|xs| - 1]
    requires forall i {:trigger xs[i].next} :: 0 <= i < |xs| ==> xs[i].next == if i + 1 < |xs| then xs[i + 1] else head
    requires forall i {:trigger xs[i].prev} :: 0 <= i < |xs| ==> xs[i].prev == if i > 0 then xs[i - 1] else head
    ensures IsList(head, xs)
  {
    var s := [head] + xs;
    hide Distinct;
    forall i {:trigger s[i].next} | 0 <= i < |s| ensures s[i].next == After(s, i) && s[i].prev == Before(s, i) {
      if i > 0 {
        assert s[i] == xs[i - 1];
      }
    }
  }

  lemma EmptyList(head: ListNode)
    requires head.next == head.prev == head
    ensures IsList(head, [])
  {
    assert [head] + [] == [head];
  }

  /** The links after a cut make two rings. */
  lemma CutRings(list: ListNode, head: ListNode, xs: seq<ListNode>, k: nat)
    requires Distinct([head] + xs) && k < |xs| && list != head && list !in xs
    requires list.next == xs[0] && list.prev == xs[k] && xs[0].prev == list && xs[k].next == list
    requires head.next == if k + 1 < |xs| then xs[k + 1] else head
    requires head.prev == if k == |xs| - 1 then head else xs[|xs| - 1]
    requires forall i {:trigger xs[i].next} :: 0 <= i < |xs| && i != k ==>
      xs[i].next == if i + 1 < |xs| then xs[i + 1] else head
    requires forall i {:trigger xs[i].prev} :: 0 < i < |xs| ==> xs[i].prev == if i == k + 1 then head else xs[i - 1]
    ensures IsList(list, xs[..k + 1]) && IsList(head, xs[k + 1..])
  {
    var a, b := xs[..k + 1], xs[k + 1..];
    DistinctParts(list, head, xs, k + 1);
    hide Distinct, IsList;
    forall i {:trigger a[i].next} | 0 <= i < |a| ensures a[i].next == (if i + 1 < |a| then a[i + 1] else list) {
      assert a[i] == xs[i];
    }
    forall i {:trigger a[i].prev} | 0 <= i < |a| ensures a[i].prev == (if i > 0 then a[i - 1] else list) {
      assert a[i] == xs[i];
    }
    LinkedList(list, a);
    if b == [] {
      EmptyList(head);
    } else {
      forall i {:trigger b[i].next} | 0 <= i < |b| ensures b[i].next == (if i + 1 < |b| then b[i + 1] else head) {
        assert b[i] == xs[k + 1 + i];
      }
      forall i {:trigger b[i].prev} | 0 <= i < |b| ensures b[i].prev == (if i > 0 then b[i - 1] else head) {
        assert b[i] == xs[k + 1 + i];
      }
      LinkedList(head, b);
    }
  }

  lemma DistinctParts(list: ListNode, head: ListNode, xs: seq<ListNode>, n: nat)
    requires Distinct([head] + xs) && n <= |xs| && list !in xs
    ensures Distinct([list] + xs[..n]) && Distinct([head] + xs[n..])
  {
    var s, b := [head] + xs, [head] + xs[n..];
    forall i, j | 0 <= i < j < |b| ensures b[i] != b[j] {
      assert b[j] == s[n + j] && b[i] == s[if i == 0 then 0 else n + i];
    }
    var a := [list] + xs[..n];
    forall i, j | 0 <= i < j < |a| ensures a[i] != a[j] {
      assert a[j] == xs[j - 1] == s[j];
      if i > 0 {
        assert a[i] == s[i];
      }
    }
  }

  /** Where entry is in the list: 0 for the head, k + 1 for element k. */
  ghost predicate IsPosition(head: ListNode, xs: seq<ListNode>, entry: ListNode, p: nat) {
    p <= |xs| && entry == ([head] + xs)[p]
  }

  /** list_cut_position: the first p elements go to the new list. An empty list is left alone, and so is the new one. */
  method ListCutPosition(list: ListNode, head: ListNode, entry: ListNode, ghost xs: seq<ListNode>, ghost p: nat)
    requires IsList(head, xs) && IsPosition(head, xs, entry, p) && list != head && list !in xs
    modifies list, head, head.next, entry, entry.next
    ensures xs != [] ==> IsList(list, xs[..p]) && IsList(head, xs[p..])
    ensures xs == [] ==> IsList(head, []) && list.next == old(list.next) && list.prev == old(list.prev)
  {
    ListTests(head, xs);
    if ListEmpty(head) {
      return;
    }
    ghost var s := [head] + xs;
    assert s[0] == head && s[1] == xs[0];
    Neighbours(s, 0);
    if ListIsSingular(head) && head.next != entry && head != entry {
      return;
    }
    if entry == head {
      assert p == 0;
      InitListHead(list);
      RingKept(s);
      assert xs[0..] == xs;
    } else {
      assert entry == xs[p - 1];
      CutBetween(list, head, entry, xs, p - 1);
    }
  }

  /** Closing a, ys and b, linked one to the next, to a ring. */
  lemma ThreeChains(a: seq<ListNode>, ys: seq<ListNode>, b: seq<ListNode>)
    requires a != [] && ys != [] && Distinct(a + ys + b) && Chain(a) && Chain(ys) && Chain(b)
    requires a[|a| - 1].next == ys[0] && ys[0].prev == a[|a| - 1]
    requires if b == [] then ys[|ys| - 1].next == a[0] && a[0].prev == ys[|ys| - 1]
             else ys[|ys| - 1].next == b[0] && b[0].prev == ys[|ys| - 1] &&
                  b[|b| - 1].next == a[0] && a[0].prev == b[|b| - 1]
    ensures Ring(a + ys + b)
  {
    ChainJoin(a, ys);
    ChainJoin(a + ys, b);
    RingIff(a + ys + b);
  }

  /** __list_splice between element k of the ring s and the one after it: the elements of the list, not its head. */
  method SpliceBetween(list: ListNode, prev: ListNode, next: ListNode, ghost ys: seq<ListNode>, ghost s: seq<ListNode>,
                       ghost k: nat)
    requires IsList(list, ys) && ys != [] && Ring(s) && Disjoint([list] + ys, s)
    requires k < |s| && prev == s[k] && next == After(s, k)
    modifies prev, next, list.next, list.prev
    ensures Ring(s[..k + 1] + ys + s[k + 1..])
    ensures list.next == old(list.next) && list.prev == old(list.prev)
  {
    ghost var l := [list] + ys;
    ghost var a, b := s[..k + 1], s[k + 1..];
    assert l[0] == list && l[1] == ys[0] && l[|ys|] == ys[|ys| - 1];
    Neighbours(l, 0);
    SplicedDistinct(list, ys, s, k);
    RingIff(s);
    RingIff(l);
    InnerChain(l, 1, |l|);
    assert l[1..|l|] == ys && s[..k + 1] == s[0..k + 1] && s[k + 1..] == s[k + 1..|s|];
    InnerChain(s, 0, k + 1);
    InnerChain(s, k + 1, |s|);
    EndsDiffer(a, ys, b);
    var first, last := list.next, list.prev;
    first.prev := prev;
    prev.next := first;
    last.next := next;
    next.prev := last;
    ChainKept(a);
    ChainKept(ys);
    ChainKept(b);
    ThreeChains(a, ys, b);
  }

  twostate lemma ChainKept(c: seq<ListNode>)
    requires old(Chain(c))
    requires forall i {:trigger c[i].next} :: 0 <= i < |c| - 1 ==> c[i].next == old(c[i].next)
    requires forall i {:trigger c[i].prev} :: 0 < i < |c| ==> c[i].prev == old(c[i].prev)
    ensures Chain(c)
  {
  }

  /** The links that closing the three stretches writes are not inside any of them. */
  lemma EndsDiffer(a: seq<ListNode>, ys: seq<ListNode>, b: seq<ListNode>)
    requires a != [] && ys != [] && Distinct(a + ys + b)
    ensures forall i :: 0 <= i < |a| - 1 ==> a[i] != a[|a| - 1] && a[i] != ys[|ys| - 1]
    ensures forall i :: 0 < i < |a| ==> a[i] != a[0] && a[i] != ys[0] && (b != [] ==> a[i] != b[0])
    ensures forall i :: 0 <= i < |ys| - 1 ==> ys[i] != a[|a| - 1] && ys[i] != ys[|ys| - 1]
    ensures forall i :: 0 < i < |ys| ==> ys[i] != a[0] && ys[i] != ys[0] && (b != [] ==> ys[i] != b[0])
    ensures forall i :: 0 <= i < |b| ==> b[i] != a[|a| - 1] && b[i] != ys[|ys| - 1]
    ensures forall i :: 0 <= i < |b| ==> b[i] != a[0] && b[i] != ys[0] && (i > 0 ==> b[i] != b[0])
  {
    var t := a + ys + b;
    assert forall i :: 0 <= i < |a| ==> a[i] == t[i];
    assert forall i :: 0 <= i < |ys| ==> ys[i] == t[|a| + i];
    assert forall i :: 0 <= i < |b| ==> b[i] == t[|a| + |ys| + i];
  }

  lemma InnerChain(s: seq<ListNode>, lo: nat, hi: nat)
    requires Chain(s) && lo <= hi <= |s|
    ensures Chain(s[lo..hi])
  {
    var c := s[lo..hi];
    forall i | 0 <= i < |c| - 1 ensures c[i].next == c[i + 1] {
      assert c[i] == s[lo + i];
    }
    forall i | 0 < i < |c| ensures c[i].prev == c[i - 1] {
      assert c[i] == s[lo + i];
    }
  }

  lemma SplicedDistinct(list: ListNode, ys: seq<ListNode>, s: seq<ListNode>, k: nat)
    requires Distinct([list] + ys) && Distinct(s) && Disjoint([list] + ys, s) && k < |s|
    ensures Distinct(s[..k + 1] + ys + s[k + 1..])
    ensures list !in s[..k + 1] + ys + s[k + 1..]
  {
    var l, t := [list] + ys, s[..k + 1] + ys + s[k + 1..];
    forall i | 0 <= i < |ys| ensures ys[i] in l && ys[i] == l[i + 1] {
    }
    assert l[0] == list && list in l;
    forall i | 0 <= i < |s| ensures s[i] in s && s[i] !in l {
    }
  }

  /** list_splice: the elements of list go in front of those of head; list itself is not changed. */
  method ListSplice(list: ListNode, head: ListNode, ghost ys: seq<ListNode>, ghost xs: seq<ListNode>)
    requires IsList(list, ys) && IsList(head, xs) && Disjoint([list] + ys, [head] + xs)
    modifies head, head.next, list.next, list.prev
    ensures IsList(head, ys + xs) && list.next == old(list.next) && list.prev == old(list.prev)
  {
    ghost var s := [head] + xs;
    ListTests(list, ys);
    assert s[0] == head;
    Neighbours(s, 0);
    if !ListEmpty(list) {
      SpliceBetween(list, head, head.next, ys, s, 0);
      assert s[..1] + ys + s[1..] == [head] + (ys + xs);
    } else {
      assert ys + xs == xs;
    }
  }

  /** list_splice_tail: behind them. */
  method ListSpliceTail(list: ListNode, head: ListNode, ghost ys: seq<ListNode>, ghost xs: seq<ListNode>)
    requires IsList(list, ys) && IsList(head, xs) && Disjoint([list] + ys, [head] + xs)
    modifies head, head.prev, list.next, list.prev
    ensures IsList(head, xs + ys) && list.next == old(list.next) && list.prev == old(list.prev)
  {
    ghost var s := [head] + xs;
    ListTests(list, ys);
    assert s[0] == head;
    Neighbours(s, 0);
    Neighbours(s, |s| - 1);
    if !ListEmpty(list) {
      SpliceBetween(list, head.prev, head, ys, s, |s| - 1);
      assert s[..|s|] + ys + s[|s|..] == [head] + (xs + ys);
    } else {
      assert xs + ys == xs;
    }
  }

  /** list_splice_init: list is left empty. */
  method ListSpliceInit(list: ListNode, head: ListNode, ghost ys: seq<ListNode>, ghost xs: seq<ListNode>)
    requires IsList(list, ys) && IsList(head, xs) && Disjoint([list] + ys, [head] + xs)
    modifies head, head.next, list, list.next, list.prev
    ensures IsList(head, ys + xs) && IsList(list, [])
  {
    NotIn(list, ys, [head] + xs);
    ListTests(list, ys);
    if !ListEmpty(list) {
      ListSplice(list, head, ys, xs);
      InitListHead(list);
    } else {
      assert ys + xs == xs;
    }
  }

  /** list_splice_tail_init */
  method ListSpliceTailInit(list: ListNode, head: ListNode, ghost ys: seq<ListNode>, ghost xs: seq<ListNode>)
    requires IsList(list, ys) && IsList(head, xs) && Disjoint([list] + ys, [head] + xs)
    modifies head, head.prev, list, list.next, list.prev
    ensures IsList(head, xs + ys) && IsList(list, [])
  {
    NotIn(list, ys, [head] + xs);
    ListTests(list, ys);
    if !ListEmpty(list) {
      ListSpliceTail(list, head, ys, xs);
      InitListHead(list);
    } else {
      assert xs + ys == xs;
    }
  }

  lemma NotIn(list: ListNode, ys: seq<ListNode>, s: seq<ListNode>)
    requires IsList(list, ys) && Disjoint([list] + ys, s)
    ensures list !in s && list !in ys && Disjoint(ys, s)
  {
    var l := [list] + ys;
    assert l[0] == list && list in l;
    forall i | 0 <= i < |ys| ensures ys[i] == l[i + 1] && ys[i] != list && ys[i] in l {
    }
  }

  /** Cutting a list into an empty one and splicing it back restores both, whatever the position. */
  method CutAndSpliceBack(list: ListNode, head: ListNode, entry: ListNode, ghost xs: seq<ListNode>, ghost p: nat)
    requires IsList(list, []) && IsList(head, xs) && IsPosition(head, xs, entry, p) && list != head && list !in xs
    modifies list, head, xs
    ensures IsList(head, xs) && IsList(list, [])
  {
    Members(head, xs, p);
    Neighbours([head] + xs, 0);
    Neighbours([head] + xs, p);
    ListCutPosition(list, head, entry, xs, p);
    Parts(list, head, xs, p);
    assert xs == [] ==> xs[..p] == xs[p..] == [];
    SpliceBack(list, head, xs[..p], xs[p..], xs);
  }

  method SpliceBack(list: ListNode, head: ListNode, ghost ys: seq<ListNode>, ghost zs: seq<ListNode>,
                    ghost xs: seq<ListNode>)
    requires IsList(list, ys) && IsList(head, zs) && Disjoint([list] + ys, [head] + zs) && xs == ys + zs
    modifies list, head, xs
    ensures IsList(head, xs) && IsList(list, [])
  {
    Members(list, ys, 0);
    Members(head, zs, 0);
    Neighbours([list] + ys, 0);
    Neighbours([head] + zs, 0);
    assert forall n :: n in ys || n in zs ==> n in xs;
    assert list.next in [list] + ys && list.prev in [list] + ys && head.next in [head] + zs;
    ListSpliceInit(list, head, ys, zs);
  }

  lemma Members(head: ListNode, xs: seq<ListNode>, p: nat)
    requires p <= |xs|
    ensures ([head] + xs)[0] == head && ([head] + xs)[p] in [head] + xs
    ensures forall n :: n in [head] + xs ==> n == head || n in xs
  {
  }

  lemma Parts(list: ListNode, head: ListNode, xs: seq<ListNode>, p: nat)
    requires p <= |xs| && Distinct([head] + xs) && list != head && list !in xs
    ensures Disjoint([list] + xs[..p], [head] + xs[p..])
  {
    var s := [head] + xs;
    forall n | n in [list] + xs[..p] ensures n !in [head] + xs[p..] {
      if n != list {
        var i :| 0 <= i < p && xs[i] == n;
        assert s[i + 1] == n;
        forall j | 0 <= j < |[head] + xs[p..]| ensures ([head] + xs[p..])[j] != n {
          assert ([head] + xs[p..])[j] == if j == 0 then s[0] else s[p + j];
        }
      }
    }
  }
}
