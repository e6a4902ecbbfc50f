/** Doubly linked rings whose nodes are addresses: one map a link field. */
module LinkMaps {

  type Links = map<int, int>

  /** From p over the nodes s to q, both ways. A ring with sentinel h is Dls(s, h, h). */
  ghost predicate Dls(s: seq<int>, p: int, q: int, nx: Links, pv: Links) {
    if s == [] then p in nx && nx[p] == q && q in pv && pv[q] == p
    else p in nx && nx[p] == s[0] && s[0] in pv && pv[s[0]] == p && Dls(s[1..], s[0], q, nx, pv)
  }

  ghost predicate NoDup(s: seq<int>) {
    s == [] || (s[0] !in s[1..] && NoDup(s[1..]))
  }

  ghost function Last(s: seq<int>, p: int): int {
    if s == [] then p else s[|s| - 1]
  }

  ghost function First(s: seq<int>, q: int): int {
    if s == [] then q else s[0]
  }

  lemma {:induction false} NoDupSplit(a: seq<int>, x: int, b: seq<int>)
    requires NoDup(a + [x] + b)
    ensures NoDup(a) && NoDup(b) && x !in a && x !in b && forall y :: y in a ==> y !in b
    ensures NoDup(a + b)
  {
    var s := a + [x] + b;
    if a == [] {
      assert s[1..] == b && a + b == b;
    } else {
      assert s[1..] == a[1..] + [x] + b;
      NoDupSplit(a[1..], x, b);
      assert a == [a[0]] + a[1..];
      assert (a + b)[1..] == a[1..] + b;
    }
  }

  lemma {:induction false} NoDupInsert(a: seq<int>, x: int, b: seq<int>)
    requires NoDup(a + b) && x !in a + b
    ensures NoDup(a + [x] + b)
  {
    var s := a + [x] + b;
    if a == [] {
      assert s[1..] == b && a + b == b;
    } else {
      assert s[1..] == a[1..] + [x] + b;
      assert (a + b)[1..] == a[1..] + b && (a + b)[0] == s[0];
      NoDupInsert(a[1..], x, b);
      assert s[0] !in s[1..];
    }
  }

  lemma {:induction false} DlsSplit(a: seq<int>, x: int, b: seq<int>, p: int, q: int, nx: Links, pv: Links)
    ensures Dls(a + [x] + b, p, q, nx, pv) <==> Dls(a, p, x, nx, pv) && Dls(b, x, q, nx, pv)
  {
    var s := a + [x] + b;
    if a == [] {
      assert s[1..] == b;
    } else {
      assert s[1..] == a[1..] + [x] + b;
      DlsSplit(a[1..], x, b, a[0], q, nx, pv);
    }
  }

  lemma {:induction false} DlsEnds(s: seq<int>, p: int, q: int, nx: Links, pv: Links)
    requires Dls(s, p, q, nx, pv)
    ensures p in nx && nx[p] == First(s, q) && q in pv && pv[q] == Last(s, p)
    ensures forall x :: x in s ==> x in nx && x in pv
  {
    if s != [] {
      DlsEnds(s[1..], s[0], q, nx, pv);
      assert s == [s[0]] + s[1..];
    }
  }

  /** The links around node x of a ring. */
  lemma DlsAround(a: seq<int>, x: int, b: seq<int>, p: int, q: int, nx: Links, pv: Links)
    requires Dls(a + [x] + b, p, q, nx, pv)
    ensures x in nx && nx[x] == First(b, q) && x in pv && pv[x] == Last(a, p)
    ensures First(b, q) in pv && Last(a, p) in nx
  {
    DlsSplit(a, x, b, p, q, nx, pv);
    DlsEnds(a, p, x, nx, pv);
    DlsEnds(b, x, q, nx, pv);
    if b != [] { assert b[0] in b; }
    if a != [] { assert a[|a| - 1] in a; }
  }

  /** `m` and `m'` agree on k. */
  ghost predicate Same(m: Links, m': Links, k: int) {
    k in m ==> k in m' && m'[k] == m[k]
  }

  /** Links that are the same at the nodes spell out the same list. */
  lemma {:induction false} DlsFrame(s: seq<int>, p: int, q: int, nx: Links, pv: Links, nx': Links, pv': Links)
    requires Dls(s, p, q, nx, pv)
    requires Same(nx, nx', p) && Same(pv, pv', q) && forall k :: k in s ==> Same(nx, nx', k) && Same(pv, pv', k)
    ensures Dls(s, p, q, nx', pv')
  {
    if s != [] {
      assert s[0] in s;
      DlsFrame(s[1..], s[0], q, nx, pv, nx', pv');
    }
  }

  /** Another node takes the place of p before the list. */
  lemma DlsRehead(s: seq<int>, p: int, p': int, q: int, nx: Links, pv: Links, nx': Links, pv': Links)
    requires Dls(s, p, q, nx, pv) && NoDup(s) && q !in s
    requires p' in nx' && nx'[p'] == First(s, q) && First(s, q) in pv' && pv'[First(s, q)] == p'
    requires forall k :: k in s ==> Same(nx, nx', k)
    requires forall k :: (k in s || k == q) && k != First(s, q) ==> Same(pv, pv', k)
    ensures Dls(s, p', q, nx', pv')
  {
    if s != [] {
      assert s == [s[0]] + s[1..];
      DlsFrame(s[1..], s[0], q, nx, pv, nx', pv');
    }
  }

  // -------------------------------------------------- insertion and removal

  /** The four writes that put x after b. */
  function NextWith(nx: Links, b: int, x: int): Links
    requires b in nx
  {
    nx[x := nx[b]][b := x]
  }

  function PrevWith(nx: Links, pv: Links, b: int, x: int): Links
    requires b in nx
  {
    pv[x := b][nx[b] := x]
  }

  lemma InsertAfterHead(s: seq<int>, b: int, q: int, x: int, nx: Links, pv: Links)
    requires Dls(s, b, q, nx, pv) && NoDup(s) && b !in s && q !in s && x !in s && x != b && x != q
    ensures b in nx && Dls([x] + s, b, q, NextWith(nx, b, x), PrevWith(nx, pv, b, x))
  {
    DlsEnds(s, b, q, nx, pv);
    DlsRehead(s, b, x, q, nx, pv, NextWith(nx, b, x), PrevWith(nx, pv, b, x));
    assert ([x] + s)[1..] == s;
  }

  lemma InsertAfterNode(a: seq<int>, b: int, c: seq<int>, h: int, x: int, nx: Links, pv: Links)
    requires Dls(a + [b] + c, h, h, nx, pv) && NoDup(a + [b] + c) && h !in a + [b] + c
    requires x !in a + [b] + c && x != h
    ensures b in nx && Dls(a + [b] + ([x] + c), h, h, NextWith(nx, b, x), PrevWith(nx, pv, b, x))
  {
    NoDupSplit(a, b, c);
    DlsSplit(a, b, c, h, h, nx, pv);
    DlsEnds(c, b, h, nx, pv);
    var nx', pv' := NextWith(nx, b, x), PrevWith(nx, pv, b, x);
    if c != [] { assert c[0] in c; }
    DlsFrame(a, h, b, nx, pv, nx', pv');
    InsertAfterHead(c, b, h, x, nx, pv);
    DlsSplit(a, b, [x] + c, h, h, nx', pv');
  }

  /** The two writes that take x out. */
  function NextWithout(nx: Links, pv: Links, x: int): Links
    requires x in nx && x in pv
  {
    nx[pv[x] := nx[x]]
  }

  function PrevWithout(nx: Links, pv: Links, x: int): Links
    requires x in nx && x in pv
  {
    pv[nx[x] := pv[x]]
  }

  lemma {:induction false} UnlinkSeg(a: seq<int>, x: int, b: seq<int>, p: int, q: int, nx: Links, pv: Links)
    requires Dls(a + [x] + b, p, q, nx, pv) && NoDup(a + [x] + b) && p !in a + [x] + b && q !in a + [x] + b
    ensures x in nx && x in pv && Dls(a + b, p, q, NextWithout(nx, pv, x), PrevWithout(nx, pv, x))
    decreases a
  {
    var s := a + [x] + b;
    DlsAround(a, x, b, p, q, nx, pv);
    NoDupSplit(a, x, b);
    var nx', pv' := NextWithout(nx, pv, x), PrevWithout(nx, pv, x);
    if a == [] {
      assert s[1..] == b && a + b == b;
      DlsRehead(b, x, p, q, nx, pv, nx', pv');
    } else {
      assert s[1..] == a[1..] + [x] + b && s[0] == a[0];
      assert (a + b)[1..] == a[1..] + b;
      UnlinkSeg(a[1..], x, b, a[0], q, nx, pv);
      assert a[|a| - 1] in a;
    }
  }
}
