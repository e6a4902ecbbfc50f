/** The circular doubly linked list of rtservice.h. Every operation is proved
    against the sequence of nodes it represents; the other modules then use
    sequences for their lists. */
module CircularList {

  class ListNode {
    var next: ListNode
    var prev: ListNode

    /** rt_list_init. */
    constructor ()
      ensures Ring([this])
    {
      next, prev := this, this;
    }
  }

  ghost function Succ(r: seq<ListNode>, k: nat): ListNode
    requires k < |r|
  {
    if k + 1 < |r| then r[k + 1] else r[0]
  }

  ghost function Pred(r: seq<ListNode>, k: nat): ListNode
    requires k < |r|
  {
    if k > 0 then r[k - 1] else r[|r| - 1]
  }

  /** The nodes r in list order, starting from any of them: `next` and `prev` close a ring. */
  ghost predicate Ring(r: seq<ListNode>)
    reads r
  {
    && |r| > 0
    && (forall i, j :: 0 <= i < j < |r| ==> r[i] != r[j])
    && (forall i :: 0 <= i < |r| ==> r[i].next == Succ(r, i) && r[i].prev == Pred(r, i))
  }

  /** The sequence r with n at position k. */
  ghost function Inserted(r: seq<ListNode>, k: nat, n: ListNode): (s: seq<ListNode>)
    requires k <= |r|
    ensures |s| == |r| + 1 && s[k] == n
    ensures forall i :: 0 <= i < k ==> s[i] == r[i]
    ensures forall i :: k <= i < |r| ==> s[i + 1] == r[i]
    ensures forall i :: k < i < |s| ==> s[i] == r[i - 1]
    ensures s == r[..k] + [n] + r[k..]
  {
    r[..k] + [n] + r[k..]
  }

  /** The links of a ring with a new node at position k, given those around it. */
  lemma InsertedRing(r: seq<ListNode>, k: nat, n: ListNode)
    requires 0 < k <= |r| && n !in r && (forall i, j :: 0 <= i < j < |r| ==> r[i] != r[j])
    requires n.prev == r[k - 1] && r[k - 1].next == n
    requires n.next == Succ(r, k - 1) && Succ(r, k - 1).prev == n
    requires forall i :: 0 <= i < |r| && i != k - 1 ==> r[i].next == Succ(r, i)
    requires forall i :: 0 <= i < |r| && i != (if k < |r| then k else 0) ==> r[i].prev == Pred(r, i)
    ensures Ring(Inserted(r, k, n))
  {
    var s := Inserted(r, k, n);
    forall i | 0 <= i < |s| ensures s[i].next == Succ(s, i) && s[i].prev == Pred(s, i) {
      if i < k { assert s[i] == r[i]; } else if i > k { assert s[i] == r[i - 1]; }
    }
  }

  /** rt_list_insert_after: n becomes the successor of node k of the ring. */
  method InsertAfter(l: ListNode, n: ListNode, ghost r: seq<ListNode>, ghost k: nat)
    requires Ring(r) && k < |r| && r[k] == l && n !in r
    modifies r, n
    ensures Ring(Inserted(r, k + 1, n))
  {
    assert l.next == Succ(r, k);
    l.next.prev := n;
    n.next := l.next;
    l.next := n;
    n.prev := l;
    InsertedRing(r, k + 1, n);
  }

  /** rt_list_insert_before: n becomes the predecessor of node k; in front of the
      head is at the end of the list. */
  method InsertBefore(l: ListNode, n: ListNode, ghost r: seq<ListNode>, ghost k: nat)
    requires Ring(r) && k < |r| && r[k] == l && n !in r
    modifies r, n
    ensures Ring(Inserted(r, if k == 0 then |r| else k, n))
  {
    assert l.prev == Pred(r, k);
    l.prev.next := n;
    n.prev := l.prev;
    l.prev := n;
    n.next := l;
    InsertedRing(r, if k == 0 then |r| else k, n);
  }

  /** The sequence r without position k. */
  ghost function Removed(r: seq<ListNode>, k: nat): (s: seq<ListNode>)
    requires k < |r|
    ensures |s| == |r| - 1
    ensures forall i :: 0 <= i < k ==> s[i] == r[i]
    ensures forall i :: k <= i < |s| ==> s[i] == r[i + 1]
    ensures s == r[..k] + r[k + 1..]
  {
    r[..k] + r[k + 1..]
  }

  lemma RemovedRing(r: seq<ListNode>, k: nat)
    requires k < |r| && |r| > 1 && (forall i, j :: 0 <= i < j < |r| ==> r[i] != r[j])
    requires Pred(r, k).next == Succ(r, k) && Succ(r, k).prev == Pred(r, k)
    requires forall i :: 0 <= i < |r| && i != k && r[i] != Pred(r, k) ==> r[i].next == Succ(r, i)
    requires forall i :: 0 <= i < |r| && i != k && r[i] != Succ(r, k) ==> r[i].prev == Pred(r, i)
    ensures Ring(Removed(r, k))
  {
    var s := Removed(r, k);
    forall i | 0 <= i < |s| ensures s[i].next == Succ(s, i) && s[i].prev == Pred(s, i) {
      if i < k { assert s[i] == r[i]; } else { assert s[i] == r[i + 1]; }
    }
  }

  /** rt_list_remove: node k leaves the ring and becomes a ring of its own. */
  method Remove(n: ListNode, ghost r: seq<ListNode>, ghost k: nat)
    requires Ring(r) && k < |r| && r[k] == n
    modifies r
    ensures Ring([n])
    ensures |r| > 1 ==> Ring(Removed(r, k))
  {
    assert n.next == Succ(r, k) && n.prev == Pred(r, k);
    n.next.prev := n.prev;
    n.prev.next := n.next;
    n.next := n;
    n.prev := n;
    if |r| > 1 { RemovedRing(r, k); }
  }

  /** rt_list_isempty. */
  method IsEmpty(l: ListNode, ghost r: seq<ListNode>) returns (e: bool)
    requires Ring(r) && r[0] == l
    ensures e <==> r == [l]
  {
    assert l.next == Succ(r, 0);
    e := l.next == l;
  }

  /** rt_list_len: the nodes other than the head. */
  method Len(l: ListNode, ghost r: seq<ListNode>) returns (len: nat)
    requires Ring(r) && r[0] == l
    ensures len == |r| - 1
  {
    len := 0;
    var p := l;
    assert p.next == Succ(r, 0);
    while p.next != l
      invariant len < |r| && p == r[len] && p.next == Succ(r, len)
      decreases |r| - len
    {
      assert p.next == Succ(r, len);
      p := p.next;
      len := len + 1;
      assert p.next == Succ(r, len);
    }
  }

  /** Taking out the node just put in restores the sequence. */
  lemma RemoveUndoesInsert(r: seq<ListNode>, k: nat, n: ListNode)
    requires k <= |r|
    ensures Removed(Inserted(r, k, n), k) == r
  {
    var s := Removed(Inserted(r, k, n), k);
    assert forall i :: 0 <= i < |r| ==> s[i] == r[i];
  }
}
