/** kmem_cache_free_bulk(): an array of objects is given back page by page. */
module SlubBulk {
  import opened SlubState
  import opened SlubSteps
  import opened SlubProgram

  /** The non-NULL entries, each there once. */
  ghost predicate OnceEach(a: seq<int>) {
    forall i, j | 0 <= i < j < |a| && a[i] != 0 :: a[i] != a[j]
  }

  ghost function Given(a: seq<int>): set<int> {
    set x | x in a && x != 0
  }

  /** list took entries out of a, leaving b. */
  ghost predicate Took(a: seq<int>, b: seq<int>, list: seq<int>) {
    && |b| == |a| && (forall i | 0 <= i < |a| :: b[i] == a[i] || (b[i] == 0 && a[i] in list))
    && (forall x | x in list :: x != 0 && x in a && x !in b) && Distinct(list)
  }

  lemma TookOne(a: seq<int>, b: seq<int>, list: seq<int>, k: nat)
    requires OnceEach(a) && Took(a, b, list) && k < |b| && b[k] != 0
    ensures Took(a, b[k := 0], [b[k]] + list)
  {
    var x := b[k];
    var b' := b[k := 0];
    assert a[k] == x;
    assert x !in list;
    forall j | 0 <= j < |b'| ensures b'[j] != x {
      if j != k { assert b[j] == a[j] || b[j] == 0; }
    }
    forall y | y in list ensures y !in b' {
      assert y !in b;
      forall j | 0 <= j < |b'| ensures b'[j] != y {
        assert b'[j] == 0 || b'[j] == b[j];
      }
    }
    DistinctAppend([x], list);
  }

  /** build_detached_freelist(): the last entry and, looking ahead past at most two strangers, those
      before it of the same page; all entries from next on are done. */
  method BuildDetached(p: array<int>, size0: nat, pageOf: int -> int) returns (next: nat, page: int, list: seq<int>)
    requires 0 < size0 <= p.Length && OnceEach(p[..]) && forall i | size0 <= i < p.Length :: p[i] == 0
    modifies p
    ensures next < size0 && forall i | next <= i < p.Length :: p[i] == 0
    ensures Took(old(p[..]), p[..], list) && forall x | x in list :: pageOf(x) == page
    ensures list == [] ==> next == 0
  {
    hide Took, OnceEach;
    var size := size0;
    TookNone(p[..]);
    size := size - 1;
    while p[size] == 0 && size > 0
      invariant size < size0 && p[..] == old(p[..]) && forall i | size < i < p.Length :: p[i] == 0
    {
      size := size - 1;
    }
    if p[size] == 0 {
      return 0, 0, [];
    }
    page := pageOf(p[size]);
    TookOne(old(p[..]), p[..], [], size);
    list := [p[size]] + [];
    ghost var b := p[..];
    p[size] := 0;
    assert p[..] == b[size := 0];
    next := 0;
    var lookahead := 3;
    while size > 0
      invariant size < size0 && 0 < lookahead <= 3 && (next == 0 <==> lookahead == 3) && list != []
      invariant (next == 0 || size < next < size0) && forall i | (if next == 0 then size else next) <= i < p.Length :: p[i] == 0
      invariant Took(old(p[..]), p[..], list) && forall x | x in list :: pageOf(x) == page
    {
      size := size - 1;
      var obj := p[size];
      if obj == 0 {
        continue;
      }
      if pageOf(obj) == page {
        TookOne(old(p[..]), p[..], list, size);
        b := p[..];
        list := [obj] + list;
        p[size] := 0;
        assert p[..] == b[size := 0];
        continue;
      }
      lookahead := lookahead - 1;
      if lookahead == 0 {
        break;
      }
      if next == 0 {
        next := size + 1;
      }
    }
  }

  lemma TookNone(a: seq<int>)
    ensures Took(a, a, [])
  {
  }

  /** What is left to give back after one page's objects. */
  lemma TookGiven(a: seq<int>, b: seq<int>, list: seq<int>)
    requires OnceEach(a) && Took(a, b, list)
    ensures OnceEach(b) && Given(b) == Given(a) - Elems(list) && Elems(list) <= Given(a) && Distinct(list)
  {
    forall i, j | 0 <= i < j < |b| && b[i] != 0 ensures b[i] != b[j] {
      assert b[i] == a[i] && (b[j] == a[j] || b[j] == 0);
    }
    forall x ensures x in Given(b) <==> x in Given(a) && x !in list {
      if x in Given(a) && x !in list {
        var i :| 0 <= i < |a| && a[i] == x;
        assert b[i] == x;
      }
      if x in Given(b) {
        var i :| 0 <= i < |b| && b[i] == x;
        assert a[i] == x;
        assert x in a && x !in list;
      }
    }
    assert forall x :: x in Elems(list) <==> x in list;
    forall x | x in Elems(list) ensures x in Given(a) {
      assert x in list;
      assert x != 0 && x in a;
    }
  }

  /** The caller's duty: every entry is a live object of the slab that pageOf says. */
  ghost predicate AllReturns(s: State, given: set<int>, pageOf: int -> int) {
    forall x | x in given :: x in s.live && pageOf(x) in s.pages && x in s.pages[pageOf(x)].objs
  }

  /** Every object of the array is given back, exactly once, whatever the order and the pages. */
  method FreeBulk(cache: Cache, c: nat, p: array<int>, pageOf: int -> int)
    requires Inv(cache.S()) && c < |cache.cpus| && p.Length > 0 && OnceEach(p[..])
    requires AllReturns(cache.S(), Given(p[..]), pageOf)
    modifies cache, p
    ensures Inv(cache.S()) && cache.live == old(cache.live) - Given(old(p[..]))
    ensures forall i | 0 <= i < p.Length :: p[i] == 0
  {
    hide Inv, OnceEach, Took;
    var size: nat := p.Length;
    while size > 0
      invariant size <= p.Length && forall i | size <= i < p.Length :: p[i] == 0
      invariant Inv(cache.S()) && c < |cache.cpus| && OnceEach(p[..]) && Given(p[..]) <= Given(old(p[..]))
      invariant AllReturns(cache.S(), Given(p[..]), pageOf)
      invariant cache.live == old(cache.live) - (Given(old(p[..])) - Given(p[..]))
    {
      ghost var a := p[..];
      var next, page, list := BuildDetached(p, size, pageOf);
      TookGiven(a, p[..], list);
      if list != [] {
        ghost var s := cache.S();
        assert list[0] in Elems(list);
        assert forall x | x in list :: x in Elems(list);
        assert Returns(s, page, list);
        cache.Free(c, page, list);
        StillReturns(s, cache.S(), Given(p[..]), pageOf);
      }
      size := next;
    }
    assert Given(p[..]) == {};
  }

  /** The objects still to be given back are live after a free, so their pages exist. */
  lemma StillReturns(s: State, s': State, given: set<int>, pageOf: int -> int)
    requires Inv(s) && Inv(s') && AllReturns(s, given, pageOf) && given <= s'.live
    requires forall q | q in s'.pages :: q in s.pages && s'.pages[q].objs == s.pages[q].objs
    ensures AllReturns(s', given, pageOf)
  {
    forall x | x in given ensures pageOf(x) in s'.pages && x in s'.pages[pageOf(x)].objs {
      var q :| q in s'.pages && x in s'.pages[q].objs;
      assert q == pageOf(x);
    }
  }
}
