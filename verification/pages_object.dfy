/** The page list as slab.c keeps it: headers in the first page of every run, and
    a pointer to the link to be changed. */
module PageObject {
  import opened Options
  import opened PageSpec

  datatype PageHead = PageHead(next: Option<nat>, page: nat)

  ghost predicate Chain(head: map<nat, PageHead>, start: Option<nat>, rs: seq<Run>)
    decreases rs
  {
    if rs == [] then start == None
    else start == Some(rs[0].at) && rs[0].at in head && head[rs[0].at].page == rs[0].n &&
         Chain(head, head[rs[0].at].next, rs[1..])
  }

  /** Headers below a chain are not part of it. */
  lemma {:induction false} ChainFrame(head: map<nat, PageHead>, start: Option<nat>, rs: seq<Run>, at: nat,
                                      h: PageHead, lo: int)
    requires Chain(head, start, rs) && Gapped(rs, lo) && at <= lo
    ensures Chain(head[at := h], start, rs)
    decreases rs
  {
    if rs != [] {
      ChainFrame(head, head[rs[0].at].next, rs[1..], at, h, rs[0].at + rs[0].n);
    }
  }

  /** Following the list from `start` through the runs a, the next link to read is
      `link`: &rt_page_list (None) or the `next` field of the last run of a. */
  ghost predicate Before(head: map<nat, PageHead>, start: Option<nat>, a: seq<Run>, link: Option<nat>, b: Option<nat>,
                         lo: int)
    decreases a
  {
    if a == [] then start == b
    else
      && start == Some(a[0].at) && a[0].at in head && head[a[0].at].page == a[0].n && lo < a[0].at && 0 < a[0].n
      && (|a| == 1 ==> link == Some(a[0].at))
      && Before(head, head[a[0].at].next, a[1..], link, b, a[0].at + a[0].n)
  }

  ghost function Top(a: seq<Run>, lo: int): int {
    if a == [] then lo else a[|a| - 1].at + a[|a| - 1].n
  }

  lemma {:induction false} BeforeJoin(head: map<nat, PageHead>, start: Option<nat>, a: seq<Run>, link: Option<nat>,
                                      b: Option<nat>, c: seq<Run>, lo: int)
    requires Before(head, start, a, link, b, lo) && Chain(head, b, c) && Gapped(c, Top(a, lo))
    ensures Chain(head, start, a + c) && Gapped(a + c, lo)
    decreases a
  {
    if a == [] {
      assert a + c == c;
    } else {
      assert (a + c)[1..] == a[1..] + c;
      BeforeJoin(head, head[a[0].at].next, a[1..], link, b, c, a[0].at + a[0].n);
    }
  }

  /** One run further. */
  lemma {:induction false} BeforeSnoc(head: map<nat, PageHead>, start: Option<nat>, a: seq<Run>, link: Option<nat>,
                                      r: Run, lo: int)
    requires Before(head, start, a, link, Some(r.at), lo) && r.at in head && head[r.at].page == r.n
    requires Top(a, lo) < r.at && 0 < r.n
    ensures Before(head, start, a + [r], Some(r.at), head[r.at].next, lo)
    decreases a
  {
    if a == [] {
      assert a + [r] == [r] && [r][1..] == [];
    } else {
      assert (a + [r])[1..] == a[1..] + [r];
      BeforeSnoc(head, head[a[0].at].next, a[1..], link, r, a[0].at + a[0].n);
    }
  }

  lemma {:induction false} TopAbove(head: map<nat, PageHead>, start: Option<nat>, a: seq<Run>, link: Option<nat>,
                                    b: Option<nat>, lo: int)
    requires Before(head, start, a, link, b, lo)
    ensures lo <= Top(a, lo) && forall x :: x in a ==> lo < x.at < Top(a, lo)
    decreases a
  {
    if a != [] {
      TopAbove(head, head[a[0].at].next, a[1..], link, b, a[0].at + a[0].n);
      assert a == [a[0]] + a[1..];
    }
  }

  /** A header written above the runs a leaves them alone. */
  lemma {:induction false} BeforeFrame(head: map<nat, PageHead>, start: Option<nat>, a: seq<Run>, link: Option<nat>,
                                       b: Option<nat>, lo: int, at: nat, h: PageHead)
    requires Before(head, start, a, link, b, lo) && Top(a, lo) <= at
    ensures Before(head[at := h], start, a, link, b, lo)
    decreases a
  {
    if a != [] {
      TopAbove(head, start, a, link, b, lo);
      assert a[0] in a;
      BeforeFrame(head, head[a[0].at].next, a[1..], link, b, a[0].at + a[0].n, at, h);
    }
  }

  /** Changing the link changes where it leads, and nothing before it. */
  lemma {:induction false} BeforeRelink(head: map<nat, PageHead>, start: Option<nat>, a: seq<Run>, link: nat,
                                        b: Option<nat>, lo: int, v: Option<nat>)
    requires Before(head, start, a, Some(link), b, lo) && a != []
    ensures link in head && Before(head[link := head[link].(next := v)], start, a, Some(link), v, lo)
    ensures link == a[|a| - 1].at
    decreases a
  {
    TopAbove(head, start, a, Some(link), b, lo);
    if |a| > 1 {
      var lo1 := a[0].at + a[0].n;
      BeforeRelink(head, head[a[0].at].next, a[1..], link, b, lo1, v);
      TopAbove(head, head[a[0].at].next, a[1..], Some(link), b, lo1);
      assert a[|a| - 1] in a[1..];
    }
  }

  class PageList {
    var list: Option<nat>              // rt_page_list
    var head: map<nat, PageHead>
    ghost var rs: seq<Run>

    ghost predicate Valid()
      reads this
    {
      Chain(head, list, rs) && Gapped(rs, -1)
    }

    /** rt_page_init: the list starts as one run. */
    constructor (npages: nat)
      requires npages != 0
      ensures Valid() && rs == [Run(0, npages)]
    {
      list, head, rs := None, map[], [];
      new;
      FreePages(0, npages);
    }

    /** Where a walk of the list stands: the runs a are behind, c ahead. */
    ghost predicate At(a: seq<Run>, link: Option<nat>, c: seq<Run>, b: Option<nat>)
      reads this
    {
      Before(head, list, a, link, b, -1) && Chain(head, b, c) && Gapped(c, Top(a, -1)) && (a == [] <==> link == None)
    }

    /** prev = &(b->next). */
    method Advance(b: nat, ghost a: seq<Run>, ghost link: Option<nat>, ghost c: seq<Run>)
      returns (link': Option<nat>, b': Option<nat>)
      requires At(a, link, c, Some(b))
      ensures c != [] && b == c[0].at && At(a + [c[0]], link', c[1..], b')
    {
      BeforeSnoc(head, list, a, link, c[0], -1);
      link', b' := Some(b), head[b].next;
    }

    /** *prev = v: the runs d take the place of what the link led to. */
    method SetLink(link: Option<nat>, v: Option<nat>, ghost a: seq<Run>, ghost b: Option<nat>, ghost d: seq<Run>)
      requires Before(head, list, a, link, b, -1) && (a == [] <==> link == None)
      requires Chain(head, v, d) && Gapped(d, Top(a, -1))
      modifies this`list, this`head
      ensures Chain(head, list, a + d) && Gapped(a + d, -1)
    {
      if link == None {
        list := v;
      } else {
        BeforeRelink(head, list, a, link.value, b, -1, v);
        TopAbove(head, list, a, link, b, -1);
        assert a[|a| - 1] in a;
        ChainFrame(head, v, d, link.value, head[link.value].(next := v), Top(a, -1));
        head := head[link.value := head[link.value].(next := v)];
      }
      BeforeJoin(head, list, a, link, v, d, -1);
    }

    /** rt_page_alloc. */
    method AllocPages(npages: nat) returns (r: Option<nat>)
      requires Valid()
      modifies this
      ensures Valid() && (npages == 0 ==> r == None && rs == old(rs))
      ensures npages != 0 ==> rs == Alloc(old(rs), npages).1 && r == Alloc(old(rs), npages).0
    {
      if npages == 0 { return None; }
      var link: Option<nat>, b: Option<nat> := None, list;
      ghost var a, c := [], rs;
      assert a + c == rs;
      while b != None
        invariant rs == old(rs) == a + c && Valid() && At(a, link, c, b)
        invariant forall x :: x in a ==> x.n < npages
        decreases |c|
      {
        AllocSkip(a, c, npages);
        if head[b.value].page > npages {
          Split(b.value, npages, link, a, c);
          return b;
        }
        if head[b.value].page == npages {
          GappedLower(c[1..], c[0].at + c[0].n, Top(a, -1));
          SetLink(link, head[b.value].next, a, b, c[1..]);
          rs := a + c[1..];
          return b;
        }
        assert c == [c[0]] + c[1..] && a + c == (a + [c[0]]) + c[1..];
        link, b := Advance(b.value, a, link, c);
        a, c := a + [c[0]], c[1..];
      }
      AllocSkip(a, c, npages);
      return None;
    }

    /** The run at b grows over the npages above it, and over the next run if it now touches it. */
    method GrowUp(b: nat, npages: nat, ghost a: seq<Run>, ghost link: Option<nat>, ghost c: seq<Run>)
      requires At(a, link, c, Some(b)) && npages != 0 && rs == a + c
      requires Span(c[0].at + c[0].n, npages) !! Pages(c)
      modifies this
      ensures Valid() && rs == a + Free(c, c[0].at + c[0].n, npages)
    {
      ghost var r := c[0];
      PagesAbove(c[1..], r.at + r.n);
      assert r.at + r.n in Span(r.at + r.n, npages);
      var h := PageHead(head[b].next, head[b].page + npages);
      assert Chain(head, h.next, c[1..]);
      assert |c| > 1 ==> c[1..][0] == c[1] && h.next == Some(c[1].at);
      if h.next == Some(b + h.page) {
        assert c[1..][1..] == c[2..];
        Rewrite(b, PageHead(head[b + h.page].next, h.page + head[b + h.page].page), a, link, c[2..]);
      } else {
        AfterMerge(c[1..], r, r.at + r.n, npages);
        Rewrite(b, h, a, link, c[1..]);
      }
    }

    /** Give the run at b a new header; c follows it. */
    method Rewrite(b: nat, h: PageHead, ghost a: seq<Run>, ghost link: Option<nat>, ghost c: seq<Run>)
      requires Before(head, list, a, link, Some(b), -1) && Top(a, -1) < b && 0 < h.page
      requires Chain(head, h.next, c) && Gapped(c, b + h.page)
      modifies this`head, this`rs
      ensures rs == a + ([Run(b, h.page)] + c) && Valid()
    {
      ghost var d := [Run(b, h.page)] + c;
      assert d[1..] == c;
      ChainFrame(head, h.next, c, b, h, b + h.page);
      BeforeFrame(head, list, a, link, Some(b), -1, b, h);
      head := head[b := h];
      BeforeJoin(head, list, a, link, Some(b), d, -1);
      rs := a + d;
    }

    /** Write a header at n and make the current link lead to it. */
    method Place(n: nat, h: PageHead, link: Option<nat>, ghost a: seq<Run>, ghost b: Option<nat>, ghost c: seq<Run>)
      requires Before(head, list, a, link, b, -1) && (a == [] <==> link == None) && Top(a, -1) < n && 0 < h.page
      requires Chain(head, h.next, c) && Gapped(c, n + h.page)
      modifies this
      ensures rs == a + ([Run(n, h.page)] + c) && Valid()
    {
      ghost var d := [Run(n, h.page)] + c;
      assert d[1..] == c;
      ChainFrame(head, h.next, c, n, h, n + h.page);
      BeforeFrame(head, list, a, link, b, -1, n, h);
      head := head[n := h];
      SetLink(link, Some(n), a, b, d);
      rs := a + d;
    }

    /** rt_page_free of pages that are not free. */
    method FreePages(at: nat, npages: nat)
      requires Valid() && npages != 0 && Span(at, npages) !! Pages(rs)
      modifies this
      ensures Valid() && rs == Free(old(rs), at, npages)
    {
      var link: Option<nat>, b: Option<nat> := None, list;
      ghost var a, c := [], rs;
      assert a + c == rs;
      var n := at;
      while b != None
        invariant rs == old(rs) == a + c && Valid() && At(a, link, c, b)
        invariant Free(rs, at, npages) == a + Free(c, at, npages) && Top(a, -1) < at
        invariant Span(at, npages) !! Pages(c)
        decreases |c|
      {
        if b.value + head[b.value].page == n {
          GrowUp(b.value, npages, a, link, c);
          return;
        }
        if b.value == n + npages {
          Place(n, PageHead(head[b.value].next, head[b.value].page + npages), link, a, b, c[1..]);
          return;
        }
        if b.value > n + npages { break; }
        FreeGoesOn(c, at, npages);
        FreePassesRun(a, c, at, npages);
        link, b := Advance(b.value, a, link, c);
        a, c := a + [c[0]], c[1..];
      }
      Place(n, PageHead(b, npages), link, a, b, c);
    }

    /** Cut npages off the front of the run at b. */
    method Split(b: nat, npages: nat, link: Option<nat>, ghost a: seq<Run>, ghost c: seq<Run>)
      requires At(a, link, c, Some(b)) && c[0].n > npages > 0
      modifies this
      ensures rs == a + ([Run(c[0].at + npages, c[0].n - npages)] + c[1..]) && Valid()
    {
      assert c[1..] == ([Run(c[0].at + npages, c[0].n - npages)] + c[1..])[1..];
      Place(b + npages, PageHead(head[b].next, head[b].page - npages), link, a, Some(b), c[1..]);
    }
  }

  /** The search for the place of freed pages passes one run. */
  lemma FreeGoesOn(c: seq<Run>, at: nat, n: nat)
    requires c != [] && 0 < n && 0 < c[0].n && Span(at, n) !! Pages(c)
    requires c[0].at + c[0].n != at && c[0].at != at + n && c[0].at <= at + n
    ensures c[0].at + c[0].n < at && Span(at, n) !! Pages(c[1..])
  {
    BelowOrAbove(c[0], at, n);
  }

  lemma FreePassesRun(a: seq<Run>, c: seq<Run>, at: nat, n: nat)
    requires c != [] && c[0].at + c[0].n != at && c[0].at != at + n && c[0].at <= at + n
    ensures a + c == (a + [c[0]]) + c[1..]
    ensures a + Free(c, at, n) == (a + [c[0]]) + Free(c[1..], at, n)
  {
    SnocCons(a, c);
    FreePasses(c, at, n);
    SnocCons(a, [c[0]] + Free(c[1..], at, n));
  }

  lemma SnocCons(a: seq<Run>, c: seq<Run>)
    requires c != []
    ensures a + c == (a + [c[0]]) + c[1..]
  {
  }

  lemma FreePasses(c: seq<Run>, at: nat, n: nat)
    requires c != [] && c[0].at + c[0].n != at && c[0].at != at + n && c[0].at <= at + n
    ensures Free(c, at, n) == [c[0]] + Free(c[1..], at, n)
  {
  }

  lemma {:induction false} AllocSkip(a: seq<Run>, c: seq<Run>, n: nat)
    requires forall x :: x in a ==> x.n < n
    ensures Alloc(a + c, n) == (Alloc(c, n).0, a + Alloc(c, n).1)
  {
    if a == [] {
      assert a + c == c && a + Alloc(c, n).1 == Alloc(c, n).1;
    } else {
      assert (a + c)[1..] == a[1..] + c;
      assert a[0] in a;
      AllocSkip(a[1..], c, n);
      var t := Alloc(c, n).1;
      assert Alloc(a + c, n) == (Alloc(c, n).0, [a[0]] + (a[1..] + t));
      assert [a[0]] + (a[1..] + t) == a + t;
    }
  }
}
