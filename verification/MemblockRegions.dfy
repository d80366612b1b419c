/** Region tables of mm/memblock.c and the address map they stand for. */
module MemblockRegions {
  import opened Options

  const PHYS_ADDR_MAX: nat := 0xffff_ffff_ffff_ffff

  datatype Region = Region(base: nat, size: nat, nid: int, flags: set<nat>)

  const MAX_NUMNODES: int := 1024

  /** The only entry of an empty table. */
  const DUMMY := Region(0, 0, MAX_NUMNODES, {})

  function Min(a: nat, b: nat): nat { if a < b then a else b }

  function Max(a: nat, b: nat): nat { if a < b then b else a }

  function End(r: Region): nat { r.base + r.size }

  /** What is known of one address: its node and flags. */
  type Attr = (int, set<nat>)

  function AttrOf(r: Region): Attr { (r.nid, r.flags) }

  predicate Holds(r: Region, x: nat) { r.base <= x < End(r) }

  /** The address map of a table. */
  function Lookup(rs: seq<Region>, x: nat): Option<Attr> {
    if rs == [] then None
    else if Holds(rs[0], x) then Some(AttrOf(rs[0]))
    else Lookup(rs[1..], x)
  }

  /** Non-empty regions, ascending, disjoint, inside the address space. */
  ghost predicate Sorted(rs: seq<Region>) {
    && (forall i | 0 <= i < |rs| :: rs[i].size > 0 && End(rs[i]) <= PHYS_ADDR_MAX)
    && (forall i, j | 0 <= i < j < |rs| :: End(rs[i]) <= rs[j].base)
  }

  predicate Joinable(a: Region, b: Region) {
    End(a) == b.base && AttrOf(a) == AttrOf(b)
  }

  /** No two neighbours could be one region. */
  ghost predicate Minimal(rs: seq<Region>) {
    forall i | 0 <= i < |rs| - 1 :: !Joinable(rs[i], rs[i + 1])
  }

  ghost predicate Table(rs: seq<Region>) {
    Sorted(rs) && Minimal(rs)
  }

  function Total(rs: seq<Region>): nat {
    if rs == [] then 0 else rs[0].size + Total(rs[1..])
  }

  lemma {:induction false} TotalConcat(a: seq<Region>, b: seq<Region>)
    ensures Total(a + b) == Total(a) + Total(b)
  {
    if a == [] {
      assert a + b == b;
    } else {
      assert (a + b)[1..] == a[1..] + b;
      TotalConcat(a[1..], b);
    }
  }

  lemma {:induction false} LookupBelow(rs: seq<Region>, x: nat)
    requires forall i | 0 <= i < |rs| :: x < rs[i].base
    ensures Lookup(rs, x).None?
  {
    if rs != [] {
      LookupBelow(rs[1..], x);
    }
  }

  lemma {:induction false} LookupAt(rs: seq<Region>, i: nat, x: nat)
    requires Sorted(rs) && i < |rs| && Holds(rs[i], x)
    ensures Lookup(rs, x) == Some(AttrOf(rs[i]))
  {
    if i > 0 {
      assert End(rs[0]) <= rs[i].base;
      assert rs[1..][i - 1] == rs[i];
      LookupAt(rs[1..], i - 1, x);
    }
  }

  lemma SortedTail(rs: seq<Region>)
    requires Sorted(rs) && rs != []
    ensures Sorted(rs[1..]) && forall i | 0 <= i < |rs[1..]| :: End(rs[0]) <= rs[1..][i].base
  {
  }

  lemma SortedCons(r: Region, rs: seq<Region>)
    requires r.size > 0 && End(r) <= PHYS_ADDR_MAX && Sorted(rs) && (rs != [] ==> End(r) <= rs[0].base)
    ensures Sorted([r] + rs)
  {
    var all := [r] + rs;
    forall i, j | 0 <= i < j < |all| ensures End(all[i]) <= all[j].base {
      if i == 0 && j > 1 {
        assert End(rs[0]) <= rs[j - 1].base;
      }
    }
  }

  // ---------- a minimal table is determined by its address map

  ghost predicate SameMap(a: seq<Region>, b: seq<Region>) {
    forall x: nat :: Lookup(a, x) == Lookup(b, x)
  }

  /** Just past its first region, a minimal table shows something else. */
  lemma {:induction false} FirstEnds(rs: seq<Region>)
    requires Table(rs) && rs != []
    ensures Lookup(rs, End(rs[0])) != Some(AttrOf(rs[0]))
  {
    var x := End(rs[0]);
    if |rs| > 1 && rs[1].base == x {
      LookupAt(rs, 1, x);
    } else {
      forall i | 0 <= i < |rs[1..]| ensures x < rs[1..][i].base {
        assert rs[1..][i] == rs[i + 1];
        if i > 0 { assert End(rs[1]) <= rs[i + 1].base; }
      }
      LookupBelow(rs[1..], x);
    }
  }

  lemma SameFirst(a: seq<Region>, b: seq<Region>)
    requires Table(a) && Table(b) && a != [] && b != [] && SameMap(a, b)
    ensures a[0] == b[0]
  {
    LookupAt(a, 0, a[0].base);
    LookupAt(b, 0, b[0].base);
    FirstBase(a, b);
    FirstBase(b, a);
    if End(a[0]) < End(b[0]) {
      FirstEnds(a);
      LookupAt(b, 0, End(a[0]));
    }
    if End(b[0]) < End(a[0]) {
      FirstEnds(b);
      LookupAt(a, 0, End(b[0]));
    }
  }

  lemma FirstBase(a: seq<Region>, b: seq<Region>)
    requires Sorted(a) && Sorted(b) && a != [] && b != [] && SameMap(a, b)
    ensures b[0].base <= a[0].base
  {
    if a[0].base < b[0].base {
      LookupAt(a, 0, a[0].base);
      forall i | 0 <= i < |b| ensures a[0].base < b[i].base {
        if i > 0 { assert End(b[0]) <= b[i].base; }
      }
      LookupBelow(b, a[0].base);
    }
  }

  lemma {:induction false} Canonical(a: seq<Region>, b: seq<Region>)
    requires Table(a) && Table(b) && SameMap(a, b)
    ensures a == b
    decreases |a|
  {
    if a == [] || b == [] {
      if a != [] { LookupAt(a, 0, a[0].base); }
      if b != [] { LookupAt(b, 0, b[0].base); }
    } else {
      SameFirst(a, b);
      SortedTail(a);
      SortedTail(b);
      TailMinimal(a);
      TailMinimal(b);
      forall x: nat ensures Lookup(a[1..], x) == Lookup(b[1..], x) {
        if Holds(a[0], x) {
          LookupBelow(a[1..], x);
          LookupBelow(b[1..], x);
        }
        assert Lookup(a, x) == Lookup(b, x);
      }
      Canonical(a[1..], b[1..]);
      assert a == [a[0]] + a[1..] && b == [b[0]] + b[1..];
    }
  }

  lemma TailMinimal(rs: seq<Region>)
    requires Minimal(rs) && rs != []
    ensures Minimal(rs[1..])
  {
    forall i | 0 <= i < |rs[1..]| - 1 ensures !Joinable(rs[1..][i], rs[1..][i + 1]) {
      assert !Joinable(rs[i + 1], rs[i + 2]);
    }
  }

  // ---------- memblock_merge_regions

  function Joined(a: Region, b: Region): Region { a.(size := a.size + b.size) }

  function MergeAll(rs: seq<Region>): seq<Region>
    decreases |rs|
  {
    if |rs| <= 1 then rs
    else if Joinable(rs[0], rs[1]) then MergeAll([Joined(rs[0], rs[1])] + rs[2..])
    else [rs[0]] + MergeAll(rs[1..])
  }

  lemma {:induction false} MergeKeepsFirst(rs: seq<Region>)
    requires Sorted(rs) && rs != []
    ensures MergeAll(rs) != [] && MergeAll(rs)[0].base == rs[0].base && AttrOf(MergeAll(rs)[0]) == AttrOf(rs[0])
    decreases |rs|
  {
    if |rs| > 1 && Joinable(rs[0], rs[1]) {
      JoinSorted(rs);
      MergeKeepsFirst([Joined(rs[0], rs[1])] + rs[2..]);
    }
  }

  lemma {:induction false} JoinSorted(rs: seq<Region>)
    requires Sorted(rs) && |rs| > 1 && Joinable(rs[0], rs[1])
    ensures Sorted([Joined(rs[0], rs[1])] + rs[2..])
    ensures forall x: nat :: Lookup([Joined(rs[0], rs[1])] + rs[2..], x) == Lookup(rs, x)
    ensures Total([Joined(rs[0], rs[1])] + rs[2..]) == Total(rs)
  {
    var j := Joined(rs[0], rs[1]);
    SortedTail(rs);
    SortedTail(rs[1..]);
    assert rs[1..][1..] == rs[2..];
    if rs[2..] != [] { assert rs[2..][0] == rs[2]; assert End(rs[1]) <= rs[2].base; }
    SortedCons(j, rs[2..]);
    var all := [j] + rs[2..];
    assert all[1..] == rs[2..];
    forall x: nat ensures Lookup(all, x) == Lookup(rs, x) {
      assert Lookup(rs[1..], x) == if Holds(rs[1], x) then Some(AttrOf(rs[1])) else Lookup(rs[2..], x);
    }
  }

  /** Merging keeps the address map and the total, and makes the table minimal. */
  lemma {:induction false} MergeMakesTable(rs: seq<Region>)
    requires Sorted(rs)
    ensures Table(MergeAll(rs)) && SameMap(MergeAll(rs), rs) && Total(MergeAll(rs)) == Total(rs)
    decreases |rs|
  {
    if |rs| > 1 {
      if Joinable(rs[0], rs[1]) {
        JoinSorted(rs);
        MergeMakesTable([Joined(rs[0], rs[1])] + rs[2..]);
      } else {
        SortedTail(rs);
        MergeMakesTable(rs[1..]);
        MergeKeepsFirst(rs[1..]);
        var m := MergeAll(rs[1..]);
        SortedCons(rs[0], m);
        assert ([rs[0]] + m)[1..] == m;
        forall i | 0 <= i < |[rs[0]] + m| - 1 ensures !Joinable(([rs[0]] + m)[i], ([rs[0]] + m)[i + 1]) {
          if i > 0 { assert !Joinable(m[i - 1], m[i]); }
        }
      }
    }
  }
}
