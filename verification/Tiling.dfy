/** Address ranges kept in an ordered map from base address to range.

    Both memory managers keep a `BTreeMap` from base address to area. Here the map is a
    Dafny `map`, visited in ascending key order, and `Represents` ties it to the sequence
    of its values in that order. What the ranges mean is `At`: a flat function from a byte
    address to the attributes of the range that holds it. */
module Tiling {
  import opened Wrappers

  datatype Tile<+A> = Tile(base: nat, size: nat, attr: A) {
    function End(): nat {
      base + size
    }

    predicate Has(b: nat) {
      base <= b < End()
    }
  }

  /** Non-empty ranges in ascending order, none overlapping another. */
  ghost predicate Ordered<A>(ts: seq<Tile<A>>) {
    && (forall i | 0 <= i < |ts| :: ts[i].size > 0)
    && (forall i, j | 0 <= i < j < |ts| :: ts[i].End() <= ts[j].base)
  }

  /** Each range ends where the next begins. */
  ghost predicate Contiguous<A>(ts: seq<Tile<A>>) {
    forall i, j | 0 <= i && j == i + 1 && j < |ts| :: ts[i].End() == ts[j].base
  }

  /** `ts` partitions [lo, hi): no gap, no overlap, no empty range. */
  ghost predicate Tiles<A>(ts: seq<Tile<A>>, lo: nat, hi: nat) {
    && |ts| > 0
    && Ordered(ts)
    && Contiguous(ts)
    && ts[0].base == lo
    && ts[|ts| - 1].End() == hi
  }

  /** The flat map: the attributes of byte `b`, if any range holds it. */
  ghost function At<A>(ts: seq<Tile<A>>, b: nat): (a: Option<A>)
    ensures a.None? ==> forall i | 0 <= i < |ts| :: !ts[i].Has(b)
    ensures a.Some? ==> exists i | 0 <= i < |ts| :: ts[i].Has(b) && ts[i].attr == a.value
  {
    if exists i | 0 <= i < |ts| :: ts[i].Has(b) then
      var i :| 0 <= i < |ts| && ts[i].Has(b);
      Some(ts[i].attr)
    else
      None
  }

  /** Ranges that do not overlap give every byte one owner. */
  lemma AtOwner<A>(ts: seq<Tile<A>>, i: nat, b: nat)
    requires Ordered(ts) && i < |ts| && ts[i].Has(b)
    ensures At(ts, b) == Some(ts[i].attr)
  {
    var j :| 0 <= j < |ts| && ts[j].Has(b) && At(ts, b) == Some(ts[j].attr);
    if i < j {
      assert ts[i].End() <= ts[j].base;
    } else if j < i {
      assert ts[j].End() <= ts[i].base;
    }
  }

  /** A partition leaves no byte of its region without an owner, and owns nothing outside it. */
  lemma {:induction false} TilesCover<A>(ts: seq<Tile<A>>, lo: nat, hi: nat, b: nat)
    requires Tiles(ts, lo, hi)
    ensures lo <= b < hi <==> At(ts, b).Some?
  {
    if At(ts, b).Some? {
      var i :| 0 <= i < |ts| && ts[i].Has(b);
      assert i > 0 ==> ts[0].End() <= ts[i].base;
      assert i < |ts| - 1 ==> ts[i].End() <= ts[|ts| - 1].base;
    } else if lo <= b < hi {
      SkipPast(ts, lo, hi, b, |ts| - 1);
    }
  }

  lemma {:induction false} SkipPast<A>(ts: seq<Tile<A>>, lo: nat, hi: nat, b: nat, n: nat)
    requires Tiles(ts, lo, hi) && lo <= b && At(ts, b).None? && n < |ts|
    ensures ts[n].End() <= b
  {
    if n > 0 {
      SkipPast(ts, lo, hi, b, n - 1);
      assert ts[n - 1].End() == ts[n].base;
    }
    assert !ts[n].Has(b);
  }

  /** The converse: ordered ranges that own exactly the bytes of [lo, hi) partition it. */
  lemma CoverTiles<A>(ts: seq<Tile<A>>, lo: nat, hi: nat)
    requires Ordered(ts) && lo < hi
    requires forall b: nat :: lo <= b < hi <==> At(ts, b).Some?
    ensures Tiles(ts, lo, hi)
  {
    CoverEnds(ts, lo, hi);
    forall i, j | 0 <= i && j == i + 1 && j < |ts|
      ensures ts[i].End() == ts[j].base
    {
      if ts[i].End() < ts[j].base {
        GapIsUnowned(ts, i, ts[i].End());
      }
    }
  }

  lemma CoverEnds<A>(ts: seq<Tile<A>>, lo: nat, hi: nat)
    requires Ordered(ts) && lo < hi
    requires forall b: nat :: lo <= b < hi <==> At(ts, b).Some?
    ensures |ts| > 0 && ts[0].base == lo && ts[|ts| - 1].End() == hi
    ensures forall i | 0 <= i < |ts| :: lo <= ts[i].base < hi && ts[i].End() <= hi
  {
    forall i | 0 <= i < |ts|
      ensures lo <= ts[i].base < hi && ts[i].End() <= hi
    {
      AtOwner(ts, i, ts[i].base);
      AtOwner(ts, i, ts[i].End() - 1);
    }
    assert At(ts, lo).Some?;
    var first :| 0 <= first < |ts| && ts[first].Has(lo);
    assert ts[0].size > 0;
    assert first == 0;
    assert At(ts, hi - 1).Some?;
    var last :| 0 <= last < |ts| && ts[last].Has(hi - 1);
    assert ts[|ts| - 1].size > 0;
    assert last == |ts| - 1;
  }

  lemma GapIsUnowned<A>(ts: seq<Tile<A>>, i: nat, b: nat)
    requires Ordered(ts) && i + 1 < |ts| && ts[i].End() <= b < ts[i + 1].base
    ensures At(ts, b).None?
  {
    forall k | 0 <= k < |ts|
      ensures !ts[k].Has(b)
    {
      assert k < i ==> ts[k].End() <= ts[i].base;
      assert k > i + 1 ==> ts[i + 1].End() <= ts[k].base;
    }
  }

  /** Total size of the ranges whose attributes satisfy `p`. */
  ghost function SizeOf<A>(ts: seq<Tile<A>>, p: A -> bool): nat {
    if ts == [] then 0
    else (if p(ts[0].attr) then ts[0].size else 0) + SizeOf(ts[1..], p)
  }

  /** Whatever divides the ranges of a partition in two, the sizes add up to the region. */
  lemma {:induction false} SizesConserved<A>(ts: seq<Tile<A>>, lo: nat, hi: nat, p: A -> bool, q: A -> bool)
    requires Tiles(ts, lo, hi)
    requires forall i | 0 <= i < |ts| :: p(ts[i].attr) != q(ts[i].attr)
    ensures SizeOf(ts, p) + SizeOf(ts, q) == hi - lo
  {
    if |ts| > 1 {
      TilesTail(ts, lo, hi);
      SizesConserved(ts[1..], ts[0].End(), hi, p, q);
    } else {
      assert ts[1..] == [];
    }
  }

  lemma TilesTail<A>(ts: seq<Tile<A>>, lo: nat, hi: nat)
    requires Tiles(ts, lo, hi) && |ts| > 1
    ensures Tiles(ts[1..], ts[0].End(), hi)
  {
    var rest := ts[1..];
    forall i, j | 0 <= i < j < |rest|
      ensures rest[i].End() <= rest[j].base
    {
      assert rest[i] == ts[i + 1] && rest[j] == ts[j + 1];
    }
    forall i, j | 0 <= i && j == i + 1 && j < |rest|
      ensures rest[i].End() == rest[j].base
    {
      assert rest[i] == ts[i + 1] && rest[j] == ts[j + 1];
    }
    assert ts[0].End() == ts[1].base;
  }

  /** Ordered pieces laid end to end stay ordered when each part lies below the next. */
  lemma OrderedJoin<A>(xs: seq<Tile<A>>, ys: seq<Tile<A>>, cut: nat)
    requires Ordered(xs) && Ordered(ys)
    requires forall i | 0 <= i < |xs| :: xs[i].End() <= cut
    requires forall j | 0 <= j < |ys| :: cut <= ys[j].base
    ensures Ordered(xs + ys)
  {
  }

  lemma OrderedSplit<A>(xs: seq<Tile<A>>, ys: seq<Tile<A>>)
    requires Ordered(xs + ys)
    ensures Ordered(xs) && Ordered(ys)
    ensures forall i, j | 0 <= i < |xs| && 0 <= j < |ys| :: xs[i].End() <= ys[j].base
  {
    var zs := xs + ys;
    assert forall i | 0 <= i < |xs| :: xs[i] == zs[i];
    assert forall j | 0 <= j < |ys| :: ys[j] == zs[|xs| + j];
    forall i, j | 0 <= i < j < |ys|
      ensures ys[i].End() <= ys[j].base
    {
      assert ys[i] == zs[|xs| + i] && ys[j] == zs[|xs| + j];
    }
  }

  lemma ContiguousJoin<A>(xs: seq<Tile<A>>, ys: seq<Tile<A>>)
    requires Contiguous(xs) && Contiguous(ys)
    requires xs != [] && ys != [] ==> xs[|xs| - 1].End() == ys[0].base
    ensures Contiguous(xs + ys)
  {
  }

  /** A byte of a concatenation is owned by the part that owns it. */
  lemma AtJoin<A>(xs: seq<Tile<A>>, ys: seq<Tile<A>>, b: nat)
    requires Ordered(xs + ys)
    ensures At(xs + ys, b) == if At(xs, b).Some? then At(xs, b) else At(ys, b)
    ensures At(xs, b).Some? ==> At(ys, b).None?
  {
    var zs := xs + ys;
    OrderedSplit(xs, ys);
    if At(xs, b).Some? {
      var i :| 0 <= i < |xs| && xs[i].Has(b) && Some(xs[i].attr) == At(xs, b);
      assert zs[i] == xs[i];
      AtOwner(zs, i, b);
    } else if At(ys, b).Some? {
      var j :| 0 <= j < |ys| && ys[j].Has(b) && Some(ys[j].attr) == At(ys, b);
      assert zs[|xs| + j] == ys[j];
      AtOwner(zs, |xs| + j, b);
    } else {
      forall i | 0 <= i < |zs|
        ensures !zs[i].Has(b)
      {
        assert zs[i] == if i < |xs| then xs[i] else ys[i - |xs|];
      }
    }
  }

  lemma TilesBounds<A>(ts: seq<Tile<A>>, lo: nat, hi: nat)
    requires Tiles(ts, lo, hi)
    ensures lo < hi
    ensures forall i | 0 <= i < |ts| :: lo <= ts[i].base && ts[i].End() <= hi
  {
    assert ts[0].size > 0 && ts[|ts| - 1].size > 0;
    forall i | 0 <= i < |ts|
      ensures lo <= ts[i].base && ts[i].End() <= hi
    {
      assert i > 0 ==> ts[0].End() <= ts[i].base;
      assert i < |ts| - 1 ==> ts[i].End() <= ts[|ts| - 1].base;
    }
  }

  /** Partitions of neighbouring regions join. */
  lemma TilesJoin<A>(xs: seq<Tile<A>>, ys: seq<Tile<A>>, lo: nat, mid: nat, hi: nat)
    requires Tiles(xs, lo, mid) && Tiles(ys, mid, hi)
    ensures Tiles(xs + ys, lo, hi)
  {
    TilesBounds(xs, lo, mid);
    TilesBounds(ys, mid, hi);
    OrderedJoin(xs, ys, mid);
    ContiguousJoin(xs, ys);
  }

  /** A partition splits wherever its sequence is cut. */
  lemma TilesSplit<A>(xs: seq<Tile<A>>, ys: seq<Tile<A>>, lo: nat, hi: nat)
    requires Tiles(xs + ys, lo, hi) && xs != [] && ys != []
    ensures Tiles(xs, lo, ys[0].base) && Tiles(ys, ys[0].base, hi)
  {
    var zs := xs + ys;
    OrderedSplit(xs, ys);
    assert forall i | 0 <= i < |xs| :: xs[i] == zs[i];
    assert forall j | 0 <= j < |ys| :: ys[j] == zs[|xs| + j];
    forall i, j | 0 <= i && j == i + 1 && j < |ys|
      ensures ys[i].End() == ys[j].base
    {
      assert ys[i] == zs[|xs| + i] && ys[j] == zs[|xs| + j];
    }
    assert zs[|xs| - 1].End() == zs[|xs|].base;
  }

  /** Repartitioning one stretch of a partition leaves a partition. */
  lemma TilesSplice<A>(pre: seq<Tile<A>>, mid: seq<Tile<A>>, mid': seq<Tile<A>>, post: seq<Tile<A>>,
                       lo: nat, a: nat, z: nat, hi: nat)
    requires Tiles(pre + mid + post, lo, hi) && Tiles(mid, a, z) && Tiles(mid', a, z)
    ensures Tiles(pre + mid' + post, lo, hi)
  {
    hide Ordered, Contiguous;
    assert pre + mid + post == pre + (mid + post) && pre + mid' + post == pre + (mid' + post);
    assert (mid + post)[0] == mid[0];
    if pre != [] {
      TilesSplit(pre, mid + post, lo, hi);
    } else {
      assert pre + (mid + post) == mid + post;
    }
    if post != [] {
      TilesSplit(mid, post, a, hi);
      TilesJoin(mid', post, a, z, hi);
    } else {
      assert mid + post == mid && mid' + post == mid';
    }
    if pre != [] {
      TilesJoin(pre, mid' + post, lo, a, hi);
    } else {
      assert pre + (mid' + post) == mid' + post;
    }
  }

  /** ... and changes the flat map on that stretch only. */
  lemma SpliceAt<A>(pre: seq<Tile<A>>, mid: seq<Tile<A>>, mid': seq<Tile<A>>, post: seq<Tile<A>>, b: nat)
    requires Ordered(pre + mid + post) && Ordered(pre + mid' + post)
    requires At(mid, b).Some? <==> At(mid', b).Some?
    ensures At(pre + mid' + post, b) == if At(mid', b).Some? then At(mid', b) else At(pre + mid + post, b)
  {
    OrderedSplit(pre + mid, post);
    OrderedSplit(pre + mid', post);
    AtJoin(pre + mid, post, b);
    AtJoin(pre + mid', post, b);
    AtJoin(pre, mid, b);
    AtJoin(pre, mid', b);
  }

  lemma TilesCoverAll<A>(ts: seq<Tile<A>>, lo: nat, hi: nat)
    requires Tiles(ts, lo, hi)
    ensures lo < hi
    ensures forall b: nat :: lo <= b < hi <==> At(ts, b).Some?
  {
    forall b: nat
      ensures lo <= b < hi <==> At(ts, b).Some?
    {
      TilesCover(ts, lo, hi, b);
    }
    assert ts[0].Has(lo);
    TilesCover(ts, lo, hi, lo);
  }

  // ---------------------------------------------------------------------------
  // The ordered map
  // ---------------------------------------------------------------------------

  /** `m` holds exactly the ranges of `ts`, each under its base address. */
  ghost predicate Represents<A>(m: map<nat, Tile<A>>, ts: seq<Tile<A>>) {
    && (forall i | 0 <= i < |ts| :: ts[i].base in m && m[ts[i].base] == ts[i])
    && (forall k | k in m :: exists i | 0 <= i < |ts| :: ts[i].base == k)
  }

  lemma DistinctBases<A>(ts: seq<Tile<A>>, i: nat, j: nat)
    requires Ordered(ts) && i < |ts| && j < |ts|
    ensures i != j ==> ts[i].base != ts[j].base
  {
    assert ts[i].size > 0 && ts[j].size > 0;
  }

  lemma RepresentsRemove<A>(m: map<nat, Tile<A>>, pre: seq<Tile<A>>, t: Tile<A>, post: seq<Tile<A>>)
    requires Ordered(pre + [t] + post) && Represents(m, pre + [t] + post)
    ensures Represents(m - {t.base}, pre + post)
  {
    var ts, rs := pre + [t] + post, pre + post;
    assert ts[|pre|] == t;
    forall i | 0 <= i < |rs|
      ensures rs[i].base in m && rs[i].base != t.base && m[rs[i].base] == rs[i]
    {
      var k := if i < |pre| then i else i + 1;
      assert ts[k] == rs[i];
      assert ts[k].base in m;
      DistinctBases(ts, k, |pre|);
    }
    RemovedKeys(m, pre, t, post);
  }

  lemma RemovedKeys<A>(m: map<nat, Tile<A>>, pre: seq<Tile<A>>, t: Tile<A>, post: seq<Tile<A>>)
    requires Represents(m, pre + [t] + post)
    ensures forall k | k in m && k != t.base :: exists i | 0 <= i < |pre + post| :: (pre + post)[i].base == k
  {
    var ts, rs := pre + [t] + post, pre + post;
    forall k | k in m && k != t.base
      ensures exists i | 0 <= i < |rs| :: rs[i].base == k
    {
      var i :| 0 <= i < |ts| && ts[i].base == k;
      var j := if i < |pre| then i else i - 1;
      assert ts[|pre|] == t;
      assert rs[j] == ts[i];
    }
  }

  lemma RepresentsInsert<A>(m: map<nat, Tile<A>>, pre: seq<Tile<A>>, t: Tile<A>, post: seq<Tile<A>>)
    requires Ordered(pre + [t] + post) && Represents(m, pre + post)
    ensures Represents(m[t.base := t], pre + [t] + post)
  {
    var ts, rs := pre + [t] + post, pre + post;
    assert ts[|pre|] == t;
    forall i | 0 <= i < |ts|
      ensures i != |pre| ==> ts[i].base != t.base && ts[i].base in m && m[ts[i].base] == ts[i]
    {
      if i != |pre| {
        assert rs[if i < |pre| then i else i - 1] == ts[i];
        DistinctBases(ts, i, |pre|);
      }
    }
    forall k | k in m
      ensures exists i | 0 <= i < |ts| :: ts[i].base == k
    {
      var i :| 0 <= i < |rs| && rs[i].base == k;
      assert ts[if i < |pre| then i else i + 1] == rs[i];
    }
  }

  /** Overwriting a range under its own base. */
  lemma RepresentsUpdate<A>(m: map<nat, Tile<A>>, pre: seq<Tile<A>>, t: Tile<A>, u: Tile<A>, post: seq<Tile<A>>)
    requires Ordered(pre + [t] + post) && Represents(m, pre + [t] + post)
    requires u.base == t.base && Ordered(pre + [u] + post)
    ensures Represents(m[u.base := u], pre + [u] + post)
  {
    RepresentsRemove(m, pre, t, post);
    RepresentsInsert(m - {t.base}, pre, u, post);
    assert (m - {t.base})[u.base := u] == m[u.base := u];
  }

  predicate IsLeast(k: nat, s: set<nat>) {
    k in s && forall x | x in s :: k <= x
  }

  lemma {:induction false} LeastExists(s: set<nat>)
    requires s != {}
    ensures exists k: nat :: IsLeast(k, s)
  {
    var k :| k in s;
    if s == {k} {
      assert IsLeast(k, s);
    } else {
      var rest := s - {k};
      LeastExists(rest);
      var l: nat :| IsLeast(l, rest);
      assert forall x | x in s :: x == k || x in rest;
      assert IsLeast(if k < l then k else l, s);
    }
  }

  function Least(s: set<nat>): (k: nat)
    requires s != {}
    ensures IsLeast(k, s)
  {
    LeastExists(s);
    var k :| k in s && IsLeast(k, s);
    k
  }

  /** The keys of an ordered map, as its iterators visit them. */
  function SortedKeys(s: set<nat>): (ks: seq<nat>)
    ensures forall i, j | 0 <= i < j < |ks| :: ks[i] < ks[j]
    ensures forall x :: x in ks <==> x in s
  {
    if s == {} then [] else [Least(s)] + SortedKeys(s - {Least(s)})
  }

  function Bases<A>(ts: seq<Tile<A>>): (ks: seq<nat>)
    ensures |ks| == |ts| && forall i | 0 <= i < |ts| :: ks[i] == ts[i].base
  {
    seq(|ts|, i requires 0 <= i < |ts| => ts[i].base)
  }

  lemma {:induction false} AscendingUnique(xs: seq<nat>, ys: seq<nat>)
    requires forall i, j | 0 <= i < j < |xs| :: xs[i] < xs[j]
    requires forall i, j | 0 <= i < j < |ys| :: ys[i] < ys[j]
    requires forall x :: x in xs <==> x in ys
    ensures xs == ys
  {
    if xs == [] {
      assert forall i | 0 <= i < |ys| :: ys[i] in xs;
    } else {
      assert xs[0] in ys;
      assert ys[0] in xs;
      assert xs[0] == ys[0];
      var xt, yt := xs[1..], ys[1..];
      forall x
        ensures x in xt <==> x in yt
      {
        assert x in xt <==> x in xs && x != xs[0];
        assert x in yt <==> x in ys && x != ys[0];
      }
      AscendingUnique(xt, yt);
      assert xs == [xs[0]] + xt && ys == [ys[0]] + yt;
    }
  }

  /** Visiting the map in key order visits the ranges in address order. */
  lemma VisitedInOrder<A>(m: map<nat, Tile<A>>, ts: seq<Tile<A>>)
    requires Ordered(ts) && Represents(m, ts)
    ensures SortedKeys(m.Keys) == Bases(ts)
    ensures forall i | 0 <= i < |ts| :: Bases(ts)[i] in m && m[Bases(ts)[i]] == ts[i]
  {
    var ks := Bases(ts);
    forall i, j | 0 <= i < j < |ks|
      ensures ks[i] < ks[j]
    {
      assert ts[i].End() <= ts[j].base;
    }
    forall x
      ensures x in ks <==> x in m.Keys
    {
      if x in m.Keys {
        var i :| 0 <= i < |ts| && ts[i].base == x;
        assert ks[i] == x;
      }
      if x in ks {
        var i :| 0 <= i < |ks| && ks[i] == x;
        assert ts[i].base == x;
      }
    }
    AscendingUnique(SortedKeys(m.Keys), ks);
  }
}
