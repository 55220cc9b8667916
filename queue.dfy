/**
 * The string queue of queue.c: a NULL-terminated singly linked list of
 * nodes, each owning one string, under a header that keeps `head`, `tail`
 * and a cached `size`.
 *
 * The header's ghost field `nodes` lists the nodes of the chain from `head`
 * in order; `Valid` ties it to the real pointers. Every C function that
 * takes a `queue_t *` is a method taking a `Queue?`, null standing for NULL.
 * The strings of the nodes are never rewritten (node values are `const`);
 * the algorithms only relink `next`.
 */
module StringQueue {
  import opened CStrings
  import ListSpec

  /** list_ele_t: one heap string and the link to the next node. */
  class Node {
    const value: CString
    var next: Node?

    constructor (value: CString, next: Node?)
      ensures this.value == value && this.next == next
    {
      this.value := value;
      this.next := next;
    }
  }

  /** The node that follows position i in a chain (null after the last). */
  function NextOf(c: seq<Node>, i: nat): Node?
    requires i < |c|
  {
    if i + 1 < |c| then c[i + 1] else null
  }

  /** The first node of a chain, null for the empty chain. */
  function HeadOf(c: seq<Node>): Node?
  {
    if c == [] then null else c[0]
  }

  /** No node occurs twice: every node of c has multiplicity one. */
  ghost predicate Distinct(c: seq<Node>)
  {
    forall x | x in c :: multiset(c)[x] <= 1
  }

  /** The positional reading of Distinct: different positions hold different nodes. */
  ghost predicate Pairwise(c: seq<Node>)
  {
    forall i, j :: 0 <= i < |c| && 0 <= j < |c| && i != j ==> c[i] != c[j]
  }

  /**
   * c is a well-formed NULL-terminated chain: its nodes are distinct and
   * each one's `next` is the node after it, the last one's is null.
   */
  ghost predicate Chain(c: seq<Node>)
    reads c
  {
    Distinct(c) && forall i {:trigger c[i].next} :: 0 <= i < |c| ==> c[i].next == NextOf(c, i)
  }

  /** The strings a chain holds, in order. */
  function Values(c: seq<Node>): seq<CString>
  {
    seq(|c|, i requires 0 <= i < |c| => c[i].value)
  }

  /** Two positions holding the same node give that node multiplicity two. */
  lemma RepeatedTwice(c: seq<Node>, i: nat, j: nat)
    requires i < j < |c|
    ensures c[i] == c[j] ==> multiset(c)[c[i]] >= 2
  {
    assert c == c[..j] + c[j..];
    assert c[..j][i] == c[i] && c[j..][0] == c[j];
    assert c[i] in c[..j] && c[j] in c[j..];
  }

  /** The node at position k of a duplicate-free sequence occurs at no other position. */
  lemma DistinctAt(c: seq<Node>, k: nat)
    requires Distinct(c) && k < |c|
    ensures forall i :: 0 <= i < |c| && i != k ==> c[i] != c[k]
  {
    assert c[k] in c;
    forall i | 0 <= i < |c| && i != k
      ensures c[i] != c[k]
    {
      if i < k {
        RepeatedTwice(c, i, k);
      } else {
        RepeatedTwice(c, k, i);
      }
    }
  }

  /** A node sequence is duplicate-free exactly when its positions hold pairwise different nodes. */
  lemma {:induction false} DistinctIffPairwise(c: seq<Node>)
    ensures Distinct(c) <==> Pairwise(c)
  {
    if c != [] {
      var t := c[1..];
      DistinctIffPairwise(t);
      assert c == [c[0]] + t;
      assert multiset(c) == multiset{c[0]} + multiset(t);
      if Pairwise(c) {
        assert Pairwise(t) by {
          forall i, j | 0 <= i < |t| && 0 <= j < |t| && i != j ensures t[i] != t[j] {
            assert t[i] == c[i + 1] && t[j] == c[j + 1];
          }
        }
        forall j | 0 <= j < |t| ensures t[j] != c[0] {
          assert t[j] == c[j + 1];
        }
        assert c[0] !in t;
      } else {
        var i, j :| 0 <= i < |c| && 0 <= j < |c| && i != j && c[i] == c[j];
        if i > 0 && j > 0 {
          assert t[i - 1] == t[j - 1];
          assert !Pairwise(t);
          var n :| n in t && multiset(t)[n] > 1;
          assert multiset(c)[n] >= multiset(t)[n];
        } else {
          var k := if i == 0 then j else i;
          assert t[k - 1] == c[0];
          assert multiset(c)[c[0]] >= 2;
        }
      }
    }
  }

  /** Relinking keeps the nodes duplicate-free: a permutation of distinct nodes is distinct. */
  lemma DistinctPermutation(a: seq<Node>, b: seq<Node>)
    requires Distinct(a) && multiset(a) == multiset(b)
    ensures Distinct(b)
  {
    forall x | x in b ensures multiset(b)[x] <= 1 {
      assert x in multiset(b);
    }
  }

  /** Any sub-multiset of a duplicate-free node sequence is duplicate-free. */
  lemma DistinctSubmultiset(a: seq<Node>, b: seq<Node>)
    requires Distinct(a) && multiset(b) <= multiset(a)
    ensures Distinct(b)
  {
    forall x | x in b ensures multiset(b)[x] <= 1 {
      assert x in multiset(b);
      assert multiset(b)[x] <= multiset(a)[x];
      assert x in multiset(a);
    }
  }

  /**
   * Cutting a duplicate-free sequence: both parts are duplicate-free, and
   * no node of the back part occurs in the front part.
   */
  lemma DistinctSplit(c: seq<Node>, h: nat)
    requires Distinct(c) && h <= |c|
    ensures forall x :: x in c[h..] ==> x !in c[..h]
    ensures Distinct(c[..h]) && Distinct(c[h..])
  {
    assert c == c[..h] + c[h..];
    assert multiset(c) == multiset(c[..h]) + multiset(c[h..]);
    forall x | x in c[h..] ensures x !in c[..h] {
      assert x in multiset(c[h..]) && x in c;
    }
    DistinctSubmultiset(c, c[..h]);
    DistinctSubmultiset(c, c[h..]);
  }

  /** A node not yet in a duplicate-free sequence, appended to it, keeps it duplicate-free. */
  lemma DistinctSnoc(c: seq<Node>, n: Node)
    requires Distinct(c) && n !in c
    ensures Distinct(c + [n])
  {
    var d := c + [n];
    assert multiset(d) == multiset(c) + multiset{n};
    forall x | x in d ensures multiset(d)[x] <= 1 {
      if x != n {
        assert x in c;
      }
    }
  }

  /** A node not yet in a chain, linked in front of it, extends it. */
  lemma ChainCons(n: Node, c: seq<Node>)
    requires Chain(c) && n !in c && n.next == HeadOf(c)
    ensures Chain([n] + c)
  {
    var d := [n] + c;
    forall i | 0 <= i < |d| ensures d[i].next == NextOf(d, i) {
      if i > 0 {
        assert d[i] == c[i - 1];
      }
    }
    assert multiset(d) == multiset{n} + multiset(c);
    forall x | x in d ensures multiset(d)[x] <= 1 {
      if x != n {
        assert x in c;
      }
    }
  }

  /** Taking the first node off the left of two disjoint chains, for merge's left branch. */
  lemma SplitFirstOfLeft(c1: seq<Node>, c2: seq<Node>)
    requires Chain(c1) && c1 != [] && Distinct(c1 + c2)
    ensures Chain(c1[1..]) && Distinct(c1[1..] + c2) && c1[0] !in c1[1..] + c2
    ensures c1 == [c1[0]] + c1[1..]
    ensures multiset(c1 + c2) == multiset{c1[0]} + multiset(c1[1..] + c2)
  {
    ChainSuffix(c1, 1);
    assert (c1 + c2)[1..] == c1[1..] + c2;
    assert c1 + c2 == [c1[0]] + (c1[1..] + c2);
    DistinctSubmultiset(c1 + c2, c1[1..] + c2);
    DistinctSplit(c1 + c2, 1);
    assert c1[0] in (c1 + c2)[..1];
  }

  /** Taking the first node off the right of two disjoint chains, for merge's right branch. */
  lemma SplitFirstOfRight(c1: seq<Node>, c2: seq<Node>)
    requires Chain(c2) && c2 != [] && Distinct(c1 + c2)
    ensures Chain(c2[1..]) && Distinct(c1 + c2[1..]) && c2[0] !in c1 + c2[1..]
    ensures c2 == [c2[0]] + c2[1..]
    ensures multiset(c1 + c2) == multiset{c2[0]} + multiset(c1 + c2[1..])
  {
    ChainSuffix(c2, 1);
    var d := [c2[0]] + (c1 + c2[1..]);
    assert c2 == [c2[0]] + c2[1..];
    assert multiset(c1 + c2) == multiset(c1) + multiset(c2);
    assert multiset(c1 + c2[1..]) == multiset(c1) + multiset(c2[1..]);
    assert multiset(d) == multiset(c1 + c2);
    DistinctPermutation(c1 + c2, d);
    DistinctSplit(d, 1);
    assert d[1..] == c1 + c2[1..];
    assert c2[0] in d[..1];
    DistinctSubmultiset(d, d[1..]);
  }

  /** The strings after merge's left branch: the left head, then the merge of the rest. */
  lemma MergeValuesLeft(c1: seq<Node>, c2: seq<Node>, cr: seq<Node>)
    requires c1 != [] && c2 != [] && StrCaseCmp(c1[0].value, c2[0].value) < 0
    requires Values(cr) == ListSpec.Merge(Values(c1[1..]), Values(c2))
    ensures Values([c1[0]] + cr) == ListSpec.Merge(Values(c1), Values(c2))
  {
    ValuesCons(c1[0], cr);
    assert Values(c1)[1..] == Values(c1[1..]);
  }

  /** The strings after merge's right branch: the right head, then the merge with the rest. */
  lemma MergeValuesRight(c1: seq<Node>, c2: seq<Node>, cr: seq<Node>)
    requires c1 != [] && c2 != [] && !(StrCaseCmp(c1[0].value, c2[0].value) < 0)
    requires Values(cr) == ListSpec.Merge(Values(c1), Values(c2[1..]))
    ensures Values([c2[0]] + cr) == ListSpec.Merge(Values(c1), Values(c2))
  {
    ValuesCons(c2[0], cr);
    assert Values(c2)[1..] == Values(c2[1..]);
  }

  /** The strings of the two parts of a split chain. */
  lemma ValuesSplit(c: seq<Node>, h: nat)
    requires h <= |c|
    ensures Values(c)[..h] == Values(c[..h]) && Values(c)[h..] == Values(c[h..])
  {
    assert forall i :: 0 <= i < h ==> Values(c)[..h][i] == c[i].value == Values(c[..h])[i];
    assert forall i :: 0 <= i < |c| - h ==> Values(c)[h..][i] == c[h + i].value == Values(c[h..])[i];
  }

  /**
   * What mergeSortList needs of its two sorted halves before merging them:
   * they hold the nodes of the whole, and no node twice.
   */
  lemma SortedPartsDisjoint(c: seq<Node>, h: nat, s1: seq<Node>, s2: seq<Node>)
    requires Distinct(c) && h <= |c|
    requires multiset(s1) == multiset(c[..h]) && multiset(s2) == multiset(c[h..])
    ensures Distinct(s1 + s2) && multiset(s1 + s2) == multiset(c)
    ensures forall i :: 0 <= i < |s1| ==> s1[i] in c
    ensures forall i :: 0 <= i < |s2| ==> s2[i] in c
  {
    assert c == c[..h] + c[h..];
    InPermutation(s1, c[..h]);
    InPermutation(s2, c[h..]);
    InPrefixSuffix(c, h);
    assert forall i :: 0 <= i < |s1| ==> s1[i] in s1;
    assert forall i :: 0 <= i < |s2| ==> s2[i] in s2;
    assert multiset(s1 + s2) == multiset(s1) + multiset(s2) == multiset(c);
    DistinctPermutation(c, s1 + s2);
  }

  /** The strings mergeSortList returns are those of MergeSort on the strings it was given. */
  lemma MergeSortOfValues(c: seq<Node>, h: nat, s1: seq<Node>, s2: seq<Node>, s: seq<Node>)
    requires |c| >= 2 && h == |c| / 2
    requires Values(s1) == ListSpec.MergeSort(Values(c[..h]))
    requires Values(s2) == ListSpec.MergeSort(Values(c[h..]))
    requires Values(s) == ListSpec.Merge(Values(s1), Values(s2))
    ensures Values(s) == ListSpec.MergeSort(Values(c))
  {
    ValuesSplit(c, h);
  }

  /** The strings of a chain with a node in front. */
  lemma ValuesCons(n: Node, c: seq<Node>)
    ensures Values([n] + c) == [n.value] + Values(c)
  {
  }

  /** Permuted node sequences hold the same nodes. */
  lemma InPermutation(a: seq<Node>, b: seq<Node>)
    requires multiset(a) == multiset(b)
    ensures forall x :: x in a <==> x in b
  {
    forall x ensures x in a <==> x in b {
      assert x in a <==> x in multiset(a);
      assert x in b <==> x in multiset(b);
    }
  }

  /** The nodes of both parts of a split are nodes of the whole. */
  lemma InPrefixSuffix(c: seq<Node>, h: nat)
    requires h <= |c|
    ensures forall x :: x in c[..h] ==> x in c
    ensures forall x :: x in c[h..] ==> x in c
  {
    assert c == c[..h] + c[h..];
  }

  /** Every suffix of a chain is a chain. */
  lemma ChainSuffix(c: seq<Node>, k: nat)
    requires Chain(c) && k <= |c|
    ensures Chain(c[k..])
  {
    var t := c[k..];
    forall i | 0 <= i < |t| ensures t[i].next == NextOf(t, i) {
      assert t[i] == c[k + i];
    }
    DistinctSplit(c, k);
  }

  /**
   * A chain is determined by its first node: the node sequence is the one
   * reached by following `next` from there, so its length is the number of
   * nodes a walk from `head` visits.
   */
  lemma {:induction false} ChainDeterminedByHead(c1: seq<Node>, c2: seq<Node>)
    requires Chain(c1) && Chain(c2) && HeadOf(c1) == HeadOf(c2)
    ensures c1 == c2
    decreases |c1|
  {
    if c1 != [] {
      assert c2 != [] && c1[0] == c2[0];
      ChainSuffix(c1, 1);
      ChainSuffix(c2, 1);
      assert HeadOf(c1[1..]) == c1[0].next == HeadOf(c2[1..]);
      ChainDeterminedByHead(c1[1..], c2[1..]);
      assert c1 == [c1[0]] + c1[1..];
      assert c2 == [c2[0]] + c2[1..];
    }
  }

  /** The strings of a reversed chain are the reversed strings. */
  lemma ValuesReverse(c: seq<Node>)
    ensures Values(ListSpec.Reverse(c)) == ListSpec.Reverse(Values(c))
  {
    forall k | 0 <= k < |c|
      ensures Values(ListSpec.Reverse(c))[k] == ListSpec.Reverse(Values(c))[k]
    {
      ListSpec.ReverseAt(c, k);
      ListSpec.ReverseAt(Values(c), k);
    }
  }

  /** Nodes whose links all point backwards form, read backwards, a chain. */
  lemma ChainOfBackwardLinks(c: seq<Node>)
    requires Distinct(c) && |c| >= 1
    requires forall i {:trigger c[i].next} :: 0 <= i < |c| ==> c[i].next == if i == 0 then null else c[i - 1]
    ensures Chain(ListSpec.Reverse(c))
    ensures HeadOf(ListSpec.Reverse(c)) == c[|c| - 1]
    ensures ListSpec.Reverse(c)[|c| - 1] == c[0]
  {
    var r := ListSpec.Reverse(c);
    forall i | 0 <= i < |c|
      ensures r[i] == c[|c| - 1 - i]
    {
      ListSpec.ReverseAt(c, i);
    }
    BackwardLinksForward(c, r);
    ListSpec.ReversePermutes(c);
    DistinctPermutation(c, r);
  }

  /** Read from the other end, links that all point backwards point forwards. */
  lemma BackwardLinksForward(c: seq<Node>, r: seq<Node>)
    requires |r| == |c| >= 1
    requires forall i :: 0 <= i < |c| ==> r[i] == c[|c| - 1 - i]
    requires forall i {:trigger c[i].next} :: 0 <= i < |c| ==> c[i].next == if i == 0 then null else c[i - 1]
    ensures forall i {:trigger r[i].next} :: 0 <= i < |r| ==> r[i].next == NextOf(r, i)
  {
    var n := |c|;
    forall i | 0 <= i < n ensures r[i].next == NextOf(r, i) {
      assert r[i].next == c[n - 1 - i].next;
      if i + 1 < n {
        assert r[i + 1] == c[n - 1 - (i + 1)];
      }
    }
  }

  /** queue_t: the header of a queue. */
  class Queue {
    var head: Node?
    var tail: Node?
    var size: int
    ghost var nodes: seq<Node>

    /**
     * The representation invariant every operation keeps: `size` is the
     * length of the chain from `head`, and a non-empty queue's `tail` is its
     * last node. Nothing is said of `tail` in an empty queue: after the last
     * removal it still points at the released node.
     */
    ghost predicate Valid()
      reads this, nodes
    {
      Chain(nodes) && size == |nodes| && head == HeadOf(nodes) &&
      (nodes != [] ==> tail == nodes[|nodes| - 1])
    }

    /** The strings of the queue from head to tail. */
    ghost function Contents(): seq<CString>
      reads this
    {
      Values(nodes)
    }

    constructor ()
      ensures Valid() && nodes == []
      ensures head == null && tail == null && size == 0
    {
      head, tail, size := null, null, 0;
      nodes := [];
    }
  }

  /** q_new: an empty queue, or null when the header's allocation fails. */
  method New(allocOk: bool) returns (q: Queue?)
    ensures q != null <==> allocOk
    ensures q != null ==> fresh(q) && q.Valid() && q.Contents() == []
    ensures q != null ==> q.head == null && q.tail == null && q.size == 0
  {
    if !allocOk {
      return null;
    }
    q := new Queue();
  }

  /**
   * q_free: walks the chain from `head` and releases every node with its
   * string. The result lists the released nodes in the order of release;
   * the header itself is released after them.
   */
  method Free(q: Queue?) returns (released: seq<Node>)
    requires q != null ==> q.Valid()
    ensures q == null ==> released == []
    ensures q != null ==> released == q.nodes
  {
    released := [];
    if q == null {
      return;
    }
    var preNode := q.head;
    ghost var i := 0;
    while preNode != null
      invariant 0 <= i <= |q.nodes| && released == q.nodes[..i]
      invariant preNode == if i < |q.nodes| then q.nodes[i] else null
      decreases |q.nodes| - i
    {
      var node := preNode.next;
      released := released + [preNode];
      preNode := node;
      i := i + 1;
    }
  }

  /**
   * q_insert_head. nodeAllocOk and strAllocOk are the outcomes of the two
   * allocations (node, then string copy); a failure leaves the queue as it was.
   */
  method InsertHead(q: Queue?, s: CString, nodeAllocOk: bool, strAllocOk: bool) returns (ok: bool)
    requires q != null ==> q.Valid()
    modifies q
    ensures ok <==> q != null && nodeAllocOk && strAllocOk
    ensures q != null ==> q.Valid()
    ensures ok ==> q.Contents() == [s] + old(q.Contents()) && q.size == old(q.size) + 1
    ensures ok ==> fresh(q.head) && q.nodes == [q.head] + old(q.nodes)
    ensures ok ==> q.tail == if old(q.size) == 0 then q.head else old(q.tail)
    ensures !ok && q != null ==> unchanged(q)
  {
    if q == null || !nodeAllocOk || !strAllocOk {
      return false;
    }
    var newh := new Node(s, q.head);
    q.head := newh;
    if q.size == 0 {
      q.tail := q.head;
    }
    q.size := q.size + 1;
    q.nodes := [newh] + q.nodes;
    ok := true;
    assert Values(q.nodes) == [s] + old(q.Contents());
  }

  /**
   * q_insert_tail: the new node becomes `tail`, and also `head` when the
   * queue was empty. The emptiness test reads `size`, never the stale `tail`.
   */
  method InsertTail(q: Queue?, s: CString, nodeAllocOk: bool, strAllocOk: bool) returns (ok: bool)
    requires q != null ==> q.Valid()
    modifies q, if q != null then q.nodes else []
    ensures ok <==> q != null && nodeAllocOk && strAllocOk
    ensures q != null ==> q.Valid()
    ensures ok ==> q.Contents() == old(q.Contents()) + [s] && q.size == old(q.size) + 1
    ensures ok ==> fresh(q.tail) && q.tail.next == null && q.nodes == old(q.nodes) + [q.tail]
    ensures ok ==> q.head == if old(q.size) == 0 then q.tail else old(q.head)
    ensures !ok && q != null ==> unchanged(q) && unchanged(q.nodes)
  {
    if q == null || !nodeAllocOk || !strAllocOk {
      return false;
    }
    ghost var c := q.nodes;
    var newt := new Node(s, null);
    if q.size > 0 {
      q.tail.next := newt;
    } else {
      q.head := newt;
    }
    q.tail := newt;
    q.size := q.size + 1;
    q.nodes := c + [newt];
    ok := true;
    if c != [] {
      DistinctAt(c, |c| - 1);
    }
    DistinctSnoc(c, newt);
    assert Distinct(q.nodes);
    assert Values(q.nodes) == old(q.Contents()) + [s];
  }

  /**
   * q_remove_head: fails on NULL or an empty queue. Otherwise, when sp is
   * given, sp[0 .. bufsize) receives the head string cut to bufsize-1 bytes
   * and NUL-terminated; then the head node is unlinked and released. When
   * this empties the queue, `tail` keeps pointing at the released node.
   *
   * The copy is CopyOut, the NUL-padding bounded copy; queue.c performs it
   * with memcpy of bufsize bytes, which reads past a shorter string
   * (MemcpyAsWritten in CStrings).
   */
  method RemoveHead(q: Queue?, sp: array?<char>, bufsize: nat) returns (ok: bool)
    requires q != null ==> q.Valid()
    requires sp != null && q != null && q.head != null ==> 1 <= bufsize <= sp.Length
    modifies q, sp
    ensures ok <==> q != null && old(q.size) > 0
    ensures q != null ==> q.Valid()
    ensures ok ==> q.nodes == old(q.nodes)[1..] && q.Contents() == old(q.Contents())[1..]
    ensures ok ==> q.size == old(q.size) - 1 && q.tail == old(q.tail)
    ensures ok && q.size == 0 ==> q.head == null && q.tail == old(q.head)
    ensures ok && sp != null ==> sp[..bufsize] == CopyOut(old(q.Contents())[0], bufsize)
    ensures ok && sp != null ==> sp[bufsize..] == old(sp[bufsize..])
    ensures !ok && q != null ==> unchanged(q)
    ensures !ok && sp != null ==> unchanged(sp)
  {
    if q == null || q.head == null {
      return false;
    }
    if sp != null {
      var buf := CopyOut(q.head.value, bufsize);
      forall i | 0 <= i < bufsize {
        sp[i] := buf[i];
      }
      sp[bufsize - 1] := '\0';
      assert sp[..bufsize] == buf;
    }
    ghost var c := q.nodes;
    q.head := q.head.next;
    q.size := q.size - 1;
    q.nodes := c[1..];
    ChainSuffix(c, 1);
    ok := true;
    assert Values(q.nodes) == Values(c)[1..];
  }

  /** q_size: 0 for NULL, otherwise the cached count, which is the number of nodes. */
  method Size(q: Queue?) returns (n: int)
    requires q != null ==> q.Valid()
    ensures n == if q == null then 0 else |q.Contents()|
  {
    if q == null {
      return 0;
    }
    return q.size;
  }

  /**
   * q_reverse: relinks every `next` to point backwards, allocating nothing.
   * The old head becomes `tail`. A NULL, empty or one-element queue is left
   * alone. The relinking itself is ReverseChain; `tail` is set to the old
   * head after it rather than before its loop, which touches only nodes.
   */
  method Reverse(q: Queue?)
    requires q != null ==> q.Valid()
    modifies q, if q != null then q.nodes else []
    ensures q != null ==> q.Valid()
    ensures q != null ==> q.nodes == ListSpec.Reverse(old(q.nodes))
    ensures q != null ==> q.Contents() == ListSpec.Reverse(old(q.Contents()))
    ensures q != null && old(q.size) >= 2 ==> q.tail == old(q.head) && q.head == old(q.tail)
    ensures q != null && old(q.size) <= 1 ==> unchanged(q) && unchanged(q.nodes)
  {
    if q == null || q.head == null || q.size == 1 {
      return;
    }
    ghost var c := q.nodes;
    var preNode := ReverseChain(q.head, c);
    q.tail := q.head;
    q.head := preNode;
    q.nodes := ListSpec.Reverse(c);
    ValuesReverse(c);
  }

  /**
   * The relinking of q_reverse on a chain c of at least two nodes: the first
   * node is cut off (its `next` becomes null), the second is pointed back at
   * it, and then a loop walks pre_node, current and next_node forward,
   * pointing each current node back at its predecessor. The result is the
   * final pre_node, the old last node, which heads the reversed chain.
   */
  method ReverseChain(head: Node, ghost c: seq<Node>) returns (preNode: Node)
    requires Chain(c) && |c| >= 2 && head == c[0]
    modifies c
    ensures Chain(ListSpec.Reverse(c)) && preNode == c[|c| - 1]
    ensures HeadOf(ListSpec.Reverse(c)) == preNode && ListSpec.Reverse(c)[|c| - 1] == head
  {
    ghost var n := |c|;
    DistinctAt(c, 0);
    DistinctAt(c, 1);
    preNode := head;
    var current: Node? := head.next;
    var nextNode := current.next;
    current.next := preNode;
    head.next := null;
    ghost var k := 1;
    while current != null
      invariant 1 <= k <= n && preNode == c[k - 1]
      invariant current == if k < n then c[k] else null
      invariant k < n ==> nextNode == NextOf(c, k)
      invariant c[0].next == null
      invariant forall i {:trigger c[i].next} :: 1 <= i <= k && i < n ==> c[i].next == c[i - 1]
      invariant forall i {:trigger c[i].next} :: k < i < n ==> c[i].next == old(c[i].next)
      decreases n - k
    {
      preNode := current;
      current := nextNode;
      k := k + 1;
      if current != null {
        DistinctAt(c, k);
        nextNode := current.next;
        current.next := preNode;
      }
    }
    assert forall i {:trigger c[i].next} :: 0 <= i < n ==> c[i].next == if i == 0 then null else c[i - 1];
    ChainOfBackwardLinks(c);
  }

  /**
   * merge: recursively merges two NULL-terminated chains by relinking their
   * nodes, taking from the left only when its string is strictly smaller
   * under strcasecmp (ties go to the right).
   */
  method Merge(l1: Node?, l2: Node?, ghost c1: seq<Node>, ghost c2: seq<Node>)
    returns (r: Node?, ghost c: seq<Node>)
    requires Chain(c1) && Chain(c2) && Distinct(c1 + c2)
    requires l1 == HeadOf(c1) && l2 == HeadOf(c2)
    modifies c1, c2
    ensures Chain(c) && r == HeadOf(c)
    ensures multiset(c) == multiset(c1 + c2)
    ensures Values(c) == ListSpec.Merge(Values(c1), Values(c2))
    decreases |c1| + |c2|
  {
    if l1 == null {
      assert c1 + c2 == c2;
      return l2, c2;
    }
    if l2 == null {
      assert c1 + c2 == c1;
      return l1, c1;
    }
    if StrCaseCmp(l1.value, l2.value) < 0 {
      SplitFirstOfLeft(c1, c2);
      var rest;
      ghost var cr;
      rest, cr := Merge(l1.next, l2, c1[1..], c2);
      assert l1 !in multiset(cr);
      l1.next := rest;
      ChainCons(c1[0], cr);
      r, c := l1, [c1[0]] + cr;
      MergeValuesLeft(c1, c2, cr);
    } else {
      SplitFirstOfRight(c1, c2);
      var rest;
      ghost var cr;
      rest, cr := Merge(l1, l2.next, c1, c2[1..]);
      assert l2 !in multiset(cr);
      l2.next := rest;
      ChainCons(c2[0], cr);
      r, c := l2, [c2[0]] + cr;
      MergeValuesRight(c1, c2, cr);
    }
  }

  /**
   * find_mid: walks a slow pointer one node and a fast pointer two nodes at
   * a time, then cuts the chain of n >= 2 nodes after its first n/2 nodes
   * and returns the first node of the remaining n - n/2.
   */
  method FindMid(head: Node, ghost c: seq<Node>) returns (mid: Node)
    requires Chain(c) && |c| >= 2 && head == c[0]
    modifies c[|c| / 2 - 1]
    ensures mid == c[|c| / 2]
    ensures Chain(c[..|c| / 2]) && Chain(c[|c| / 2..])
  {
    var slow := head;
    var fast: Node? := head;
    var prev: Node? := null;
    ghost var i := 0;
    while fast != null && fast.next != null
      invariant 0 <= i && 2 * i <= |c| && slow == c[i]
      invariant fast == if 2 * i < |c| then c[2 * i] else null
      invariant prev == if i == 0 then null else c[i - 1]
      decreases |c| - 2 * i
    {
      prev := slow;
      slow := slow.next;
      fast := fast.next.next;
      i := i + 1;
    }
    var h := |c| / 2;
    assert i == h;
    ChainSuffix(c, h);
    DistinctSplit(c, h);
    assert prev in c[..h];
    DistinctAt(c, h - 1);
    prev.next := null;
    mid := slow;
    ghost var front := c[..h];
    forall k | 0 <= k < h ensures front[k].next == NextOf(front, k) {
      assert front[k] == c[k];
    }
    assert Distinct(front);
  }

  /** mergeSortList: sorts a non-empty chain by relinking, returning its new first node. */
  method MergeSortList(head: Node, ghost c: seq<Node>) returns (r: Node, ghost s: seq<Node>)
    requires Chain(c) && |c| >= 1 && head == c[0]
    modifies c
    ensures Chain(s) && |s| == |c| && r == s[0]
    ensures multiset(s) == multiset(c)
    ensures Values(s) == ListSpec.MergeSort(Values(c))
    decreases |c|
  {
    if head.next == null {
      return head, c;
    }
    var h := |c| / 2;
    var mid := FindMid(head, c);
    DistinctSplit(c, h);
    var l1;
    ghost var s1;
    label BeforeFirst:
    l1, s1 := MergeSortList(head, c[..h]);
    InPermutation(s1, c[..h]);
    forall i | 0 <= i < |c| - h ensures c[h..][i].next == old@BeforeFirst(c[h..][i].next) {
      assert c[h..][i] in c[h..];
    }
    assert Chain(c[h..]);
    var l2;
    ghost var s2;
    label BeforeSecond:
    l2, s2 := MergeSortList(mid, c[h..]);
    forall i | 0 <= i < |s1| ensures s1[i].next == old@BeforeSecond(s1[i].next) {
      assert s1[i] in s1;
    }
    assert Chain(s1);
    SortedPartsDisjoint(c, h, s1, s2);
    var rr;
    rr, s := Merge(l1, l2, s1, s2);
    MergeSortOfValues(c, h, s1, s2, s);
    r := rr;
  }

  /**
   * q_sort: merge-sorts the chain, then repairs `tail` by walking forward
   * from the old tail node, which is still in the chain, to the node whose
   * `next` is null. A NULL or empty queue is left alone.
   */
  method Sort(q: Queue?)
    requires q != null ==> q.Valid()
    modifies q, if q != null then q.nodes else []
    ensures q != null ==> q.Valid() && q.size == old(q.size)
    ensures q != null ==> multiset(q.nodes) == multiset(old(q.nodes))
    ensures q != null ==> q.Contents() == ListSpec.MergeSort(old(q.Contents()))
    ensures q != null ==> ListSpec.Sorted(q.Contents())
    ensures q != null ==> multiset(q.Contents()) == multiset(old(q.Contents()))
    ensures q != null && old(q.size) == 0 ==> unchanged(q)
  {
    if q == null || q.head == null {
      return;
    }
    ghost var c := q.nodes;
    var h;
    ghost var s;
    h, s := MergeSortList(q.head, c);
    q.head := h;
    assert q.tail in multiset(c);
    ghost var j :| 0 <= j < |s| && s[j] == q.tail;
    while q.tail.next != null
      invariant 0 <= j < |s| && q.tail == s[j]
      modifies q`tail
      decreases |s| - j
    {
      q.tail := q.tail.next;
      j := j + 1;
    }
    q.nodes := s;
    ListSpec.MergeSortSorted(Values(c));
    ListSpec.MergeSortPermutes(Values(c));
  }
}
