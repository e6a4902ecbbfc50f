/** The page allocator under slab.c: a list of runs of free pages. */
module PageSpec {
  import opened Options

  /** A run of `n` free pages from page `at`. */
  datatype Run = Run(at: nat, n: nat)

  /** Runs in address order, each starting after a gap above `lo`. */
  ghost predicate Gapped(rs: seq<Run>, lo: int) {
    rs == [] || (lo < rs[0].at && 0 < rs[0].n && Gapped(rs[1..], rs[0].at + rs[0].n))
  }

  predicate Within(p: int, at: int, n: int) {
    at <= p < at + n
  }

  ghost function Span(at: int, n: int): set<int> {
    set p: int | at <= p < at + n && Within(p, at, n)
  }

  /** The free pages. */
  ghost function Pages(rs: seq<Run>): set<int> {
    if rs == [] then {} else Span(rs[0].at, rs[0].n) + Pages(rs[1..])
  }

  /** rt_page_alloc: the address found, and the list that is left. */
  function Alloc(rs: seq<Run>, n: nat): (Option<nat>, seq<Run>) {
    if rs == [] then (None, rs)
    else if rs[0].n > n then (Some(rs[0].at), [Run(rs[0].at + n, rs[0].n - n)] + rs[1..])
    else if rs[0].n == n then (Some(rs[0].at), rs[1..])
    else
      var (r, t) := Alloc(rs[1..], n);
      (r, [rs[0]] + t)
  }

  /** rt_page_free of n pages from page `at`. */
  function Free(rs: seq<Run>, at: nat, n: nat): seq<Run> {
    if rs == [] then [Run(at, n)]
    else
      var b := rs[0];
      if b.at + b.n == at then
        if rs[1..] != [] && b.at + (b.n + n) == rs[1].at
        then [Run(b.at, b.n + n + rs[1].n)] + rs[2..]
        else [Run(b.at, b.n + n)] + rs[1..]
      else if b.at == at + n then [Run(at, b.n + n)] + rs[1..]
      else if b.at > at + n then [Run(at, n)] + rs
      else [b] + Free(rs[1..], at, n)
  }

  // --------------------------------------------------------- the free pages

  lemma {:induction false} PagesAbove(rs: seq<Run>, lo: int)
    requires Gapped(rs, lo)
    ensures forall p :: p in Pages(rs) ==> lo < p
    ensures rs != [] ==> rs[0].at in Pages(rs)
  {
    if rs != [] {
      PagesAbove(rs[1..], rs[0].at + rs[0].n);
    }
  }

  lemma GappedLower(rs: seq<Run>, lo: int, lo': int)
    requires Gapped(rs, lo) && lo' <= lo
    ensures Gapped(rs, lo')
  {
  }

  /** An allocation moves exactly the pages it returns out of the free set. */
  lemma {:induction false} AllocTakes(rs: seq<Run>, n: nat, lo: int)
    requires Gapped(rs, lo) && 0 < n
    ensures var (r, t) := Alloc(rs, n);
            && Gapped(t, lo)
            && (r == None ==> t == rs)
            && (r.Some? ==> lo < r.value && Span(r.value, n) <= Pages(rs) && Pages(t) == Pages(rs) - Span(r.value, n))
  {
    if rs != [] {
      PagesAbove(rs[1..], rs[0].at + rs[0].n);
      var (r, t) := Alloc(rs, n);
      if rs[0].n > n {
        assert t[1..] == rs[1..];
      } else if rs[0].n == n {
        GappedLower(rs[1..], rs[0].at + rs[0].n, lo);
      } else {
        AllocTakes(rs[1..], n, rs[0].at + rs[0].n);
        assert t[1..] == Alloc(rs[1..], n).1;
      }
    }
  }

  /** What is handed out is the lowest stretch of n free pages. */
  lemma {:induction false} AllocLowest(rs: seq<Run>, n: nat, lo: int, a: int)
    requires Gapped(rs, lo) && 0 < n && Alloc(rs, n).0.Some? && a < Alloc(rs, n).0.value
    ensures !(Span(a, n) <= Pages(rs))
    decreases |rs|, 1
  {
    AllocTakes(rs, n, lo);
    var b, r := rs[0], Alloc(rs, n).0.value;
    var top := b.at + b.n;
    PagesAbove(rs[1..], top);
    if a < b.at {
      OutsideAt(rs, n, a, a);
    } else {
      assert b.n < n;
      if a <= top { OutsideAt(rs, n, a, top); } else { BelowRest(rs, n, lo, a); }
    }
  }

  /** A page of the stretch that is not free. */
  lemma OutsideAt(rs: seq<Run>, n: nat, a: int, p: int)
    requires Within(p, a, n) && p !in Pages(rs)
    ensures !(Span(a, n) <= Pages(rs))
  {
    assert p in Span(a, n);
  }

  lemma {:induction false} BelowRest(rs: seq<Run>, n: nat, lo: int, a: int)
    requires Gapped(rs, lo) && 0 < n && rs != [] && rs[0].n < n && rs[0].at + rs[0].n < a
    requires Alloc(rs, n).0.Some? && a < Alloc(rs, n).0.value
    ensures !(Span(a, n) <= Pages(rs))
    decreases |rs|, 0
  {
    var top := rs[0].at + rs[0].n;
    AllocLowest(rs[1..], n, top, a);
    var p :| p in Span(a, n) && p !in Pages(rs[1..]);
    OutsideAt(rs, n, a, p);
  }

  /** rt_page_alloc fails exactly when there are no n free pages in a row. */
  lemma {:induction false} AllocFailsIff(rs: seq<Run>, n: nat, lo: int)
    requires Gapped(rs, lo) && 0 < n
    ensures Alloc(rs, n).0 == None <==> forall a: int :: !(Span(a, n) <= Pages(rs))
  {
    if Alloc(rs, n).0.Some? {
      AllocTakes(rs, n, lo);
    } else {
      forall a: int ensures !(Span(a, n) <= Pages(rs)) {
        var p := MissingPage(rs, n, lo, a);
      }
    }
  }

  /** After a failed search every stretch of n pages has a page in use. */
  lemma {:induction false} MissingPage(rs: seq<Run>, n: nat, lo: int, a: int) returns (p: int)
    requires Gapped(rs, lo) && 0 < n && Alloc(rs, n).0 == None
    ensures p in Span(a, n) && p !in Pages(rs)
  {
    if rs == [] { return a; }
    var top := rs[0].at + rs[0].n;
    PagesAbove(rs[1..], top);
    if a < rs[0].at {
      p := a;
    } else if a <= top {
      p := top;
    } else {
      p := MissingPage(rs[1..], n, top, a);
    }
  }

  /** A release adds exactly the pages it gives back. */
  lemma {:induction false} FreeAdds(rs: seq<Run>, at: nat, n: nat, lo: int)
    requires Gapped(rs, lo) && 0 < n && lo < at && Span(at, n) !! Pages(rs)
    ensures Gapped(Free(rs, at, n), lo)
    ensures Pages(Free(rs, at, n)) == Pages(rs) + Span(at, n)
  {
    var f := Free(rs, at, n);
    if rs == [] {
      assert f[1..] == [];
    } else {
      var b := rs[0];
      PagesAbove(rs[1..], b.at + b.n);
      assert b.at in Span(b.at, b.n) && at in Span(at, n);
      if b.at + b.n == at {
        FreeJoins(rs, at, n, lo);
      } else if b.at == at + n {
        assert f[1..] == rs[1..];
      } else if b.at > at + n {
        assert f[1..] == rs;
      } else {
        BelowOrAbove(b, at, n);
        FreeAdds(rs[1..], at, n, b.at + b.n);
        assert f[1..] == Free(rs[1..], at, n);
      }
    }
  }

  /** The pages follow the first run, and may close the gap to the second. */
  lemma FreeJoins(rs: seq<Run>, at: nat, n: nat, lo: int)
    requires Gapped(rs, lo) && 0 < n && rs != [] && rs[0].at + rs[0].n == at && Span(at, n) !! Pages(rs)
    ensures Gapped(Free(rs, at, n), lo)
    ensures Pages(Free(rs, at, n)) == Pages(rs) + Span(at, n)
  {
    var f, b := Free(rs, at, n), rs[0];
    PagesAbove(rs[1..], b.at + b.n);
    if rs[1..] != [] && b.at + (b.n + n) == rs[1].at {
      assert f[1..] == rs[2..] == rs[1..][1..];
      PagesAbove(rs[2..], rs[1].at + rs[1].n);
    } else {
      assert f[1..] == rs[1..];
      AfterMerge(rs[1..], b, at, n);
    }
  }

  lemma BelowOrAbove(b: Run, at: nat, n: nat)
    requires 0 < n && 0 < b.n && Span(at, n) !! Span(b.at, b.n) && b.at <= at + n && b.at != at + n && b.at + b.n != at
    ensures b.at + b.n < at
  {
    assert b.at in Span(b.at, b.n) && at in Span(at, n);
    assert b.at !in Span(at, n) && at !in Span(b.at, b.n);
  }

  lemma AfterMerge(rs: seq<Run>, b: Run, at: nat, n: nat)
    requires Gapped(rs, b.at + b.n) && b.at + b.n == at && 0 < n && Span(at, n) !! Pages(rs)
    requires rs == [] || rs[0].at != at + n
    ensures Gapped(rs, at + n)
  {
    if rs != [] {
      PagesAbove(rs, b.at + b.n);
      assert rs[0].at !in Span(at, n);
    }
  }

  /** The list is determined by the set of free pages. */
  lemma {:induction false} Canonical(rs: seq<Run>, ss: seq<Run>, lo: int, lo': int)
    requires Gapped(rs, lo) && Gapped(ss, lo') && Pages(rs) == Pages(ss)
    ensures rs == ss
  {
    PagesAbove(rs, lo);
    PagesAbove(ss, lo');
    if rs != [] && ss != [] {
      SameHead(rs, ss, lo, lo');
      SameHead(ss, rs, lo', lo);
      PagesAbove(rs[1..], rs[0].at + rs[0].n);
      PagesAbove(ss[1..], ss[0].at + ss[0].n);
      assert Pages(rs[1..]) == Pages(rs) - Span(rs[0].at, rs[0].n);
      assert Pages(ss[1..]) == Pages(ss) - Span(ss[0].at, ss[0].n);
      Canonical(rs[1..], ss[1..], rs[0].at + rs[0].n, ss[0].at + ss[0].n);
      assert rs == [rs[0]] + rs[1..] && ss == [ss[0]] + ss[1..];
    }
  }

  lemma SameHead(rs: seq<Run>, ss: seq<Run>, lo: int, lo': int)
    requires Gapped(rs, lo) && Gapped(ss, lo') && Pages(rs) == Pages(ss) && rs != [] && ss != []
    ensures rs[0].at >= ss[0].at && (rs[0].at == ss[0].at ==> rs[0].n >= ss[0].n)
  {
    PagesAbove(ss[1..], ss[0].at + ss[0].n);
    PagesAbove(rs[1..], rs[0].at + rs[0].n);
    PagesAbove(rs, lo);
    var top := rs[0].at + rs[0].n;
    assert top !in Pages(rs);
    assert rs[0].at in Pages(ss);
    assert top in Span(ss[0].at, ss[0].n) <==> ss[0].at <= top < ss[0].at + ss[0].n;
  }

  // ------------------------------------------------------------- whole runs

  /** The free list, and the live allocations by first page; `own` maps every
      page handed out to the first page of its allocation. */
  datatype Heap = Heap(rs: seq<Run>, live: map<int, nat>, own: map<int, int>)

  /** Every live allocation owns its pages, and every owned page belongs to one. */
  ghost predicate Owned(live: map<int, nat>, own: map<int, int>) {
    && (forall a :: a in live ==> 0 <= a && 0 < live[a])
    && (forall a, p :: a in live && Within(p, a, live[a]) ==> p in own && own[p] == a)
    && (forall p :: p in own ==> own[p] in live && Within(p, own[p], live[own[p]]))
  }

  ghost predicate Inv(h: Heap, total: nat) {
    && Gapped(h.rs, -1) && Owned(h.live, h.own)
    && h.own.Keys !! Pages(h.rs) && h.own.Keys + Pages(h.rs) == Span(0, total)
  }

  function Initial(total: nat): Heap {
    Heap(Free([], 0, total), map[], map[])
  }

  datatype Op = OpAlloc(n: nat) | OpFree(at: nat)

  ghost function Step(h: Heap, op: Op): Heap {
    match op
    case OpAlloc(n) =>
      if n == 0 then h
      else
        var (r, rs) := Alloc(h.rs, n);
        if r == None then h
        else Heap(rs, h.live[r.value := n], Claim(h.own, r.value, n))
    case OpFree(at) =>
      if at in h.live then Heap(Free(h.rs, at, h.live[at]), h.live - {at}, h.own - Span(at, h.live[at])) else h
  }

  ghost function Claim(own: map<int, int>, a: int, n: nat): map<int, int> {
    own + map p | p in Span(a, n) :: a
  }

  lemma ClaimIs(own: map<int, int>, a: int, n: nat)
    ensures Claim(own, a, n).Keys == own.Keys + Span(a, n)
    ensures forall p :: p in Span(a, n) <==> Within(p, a, n)
    ensures forall p :: p in Claim(own, a, n) ==> Claim(own, a, n)[p] == if Within(p, a, n) then a else own[p]
  {
  }

  lemma OwnedClaim(live: map<int, nat>, own: map<int, int>, a: int, n: nat)
    requires Owned(live, own) && Span(a, n) !! own.Keys && 0 < n && 0 <= a
    ensures Owned(live[a := n], Claim(own, a, n)) && Claim(own, a, n).Keys == own.Keys + Span(a, n)
  {
    ClaimIs(own, a, n);
    var live', own' := live[a := n], Claim(own, a, n);
    assert a in live ==> Within(a, a, live[a]);
    assert a in Span(a, n) && a !in live;
    forall p | p in own' ensures own'[p] in live' && Within(p, own'[p], live'[own'[p]]) {
      if p in own { assert p !in Span(a, n) && own[p] in live; }
    }
    forall b, p | b in live' && Within(p, b, live'[b]) ensures p in own' && own'[p] == b {
      if b != a { assert p in own && p !in Span(a, n); }
    }
  }

  lemma OwnedRelease(live: map<int, nat>, own: map<int, int>, a: int)
    requires Owned(live, own) && a in live
    ensures Owned(live - {a}, own - Span(a, live[a])) && Span(a, live[a]) <= own.Keys
  {
    var live', own' := live - {a}, own - Span(a, live[a]);
    forall p | p in Span(a, live[a]) ensures p in own && own[p] == a {
      assert Within(p, a, live[a]);
    }
    forall p | p in own' ensures own'[p] in live' && Within(p, own'[p], live'[own'[p]]) {
      assert p in own && p !in Span(a, live[a]);
      assert Within(p, own[p], live[own[p]]);
    }
  }

  lemma AllocKeepsInv(h: Heap, n: nat, total: nat)
    requires Inv(h, total)
    ensures Inv(Step(h, OpAlloc(n)), total)
  {
    if n != 0 {
      AllocTakes(h.rs, n, -1);
      var r := Alloc(h.rs, n).0;
      if r.Some? {
        OwnedClaim(h.live, h.own, r.value, n);
      }
    }
  }

  lemma FreeKeepsInv(h: Heap, at: nat, total: nat)
    requires Inv(h, total)
    ensures Inv(Step(h, OpFree(at)), total)
  {
    if at in h.live {
      var n := h.live[at];
      OwnedRelease(h.live, h.own, at);
      FreeAdds(h.rs, at, n, -1);
      assert (h.own - Span(at, n)).Keys == h.own.Keys - Span(at, n);
    }
  }

  ghost function RunAll(h: Heap, ops: seq<Op>): Heap
    decreases ops
  {
    if ops == [] then h else RunAll(Step(h, ops[0]), ops[1..])
  }

  /** No page is lost, doubled or handed out twice. */
  lemma {:induction false} RunKeepsInv(h: Heap, ops: seq<Op>, total: nat)
    requires Inv(h, total)
    ensures Inv(RunAll(h, ops), total)
    decreases ops
  {
    if ops != [] {
      match ops[0] {
        case OpAlloc(n) => AllocKeepsInv(h, n, total);
        case OpFree(at) => FreeKeepsInv(h, at, total);
      }
      RunKeepsInv(Step(h, ops[0]), ops[1..], total);
    }
  }

  lemma InitialInv(total: nat)
    requires 0 < total
    ensures Inv(Initial(total), total) && Initial(total).rs == [Run(0, total)]
  {
    assert [Run(0, total)][1..] == [];
  }

  /** Once every allocation has been freed, in whatever order, the list is the
      single run it started from. */
  lemma AllFreedIsInitial(ops: seq<Op>, total: nat)
    requires 0 < total && RunAll(Initial(total), ops).live == map[]
    ensures RunAll(Initial(total), ops) == Initial(total)
  {
    var h := RunAll(Initial(total), ops);
    InitialInv(total);
    RunKeepsInv(Initial(total), ops, total);
    assert h.own.Keys == {};
    Canonical(h.rs, [Run(0, total)], -1, -1);
  }
}
