// The free space of one address range as a descending list of holes, and the
// set of addresses such a list stands for (amdgpu/amdgpu_vamgr.c).
module Holes {
  datatype Hole = Hole(offset: int, size: int) {
    function End(): int { offset + size }

    ghost predicate Has(a: int) { offset <= a < End() }
  }

  // Highest hole first, no empty hole, and a real gap between any two.
  ghost predicate Canonical(hs: seq<Hole>) {
    && (forall i :: 0 <= i < |hs| ==> hs[i].size > 0)
    && (forall i, j :: 0 <= i < j < |hs| ==> hs[j].End() < hs[i].offset)
  }

  // What a manager made over an empty range holds for ever: one hole of size 0.
  ghost predicate Barren(hs: seq<Hole>) {
    |hs| == 1 && hs[0].size == 0
  }

  ghost predicate Covers(hs: seq<Hole>, a: int) {
    exists i :: 0 <= i < |hs| && hs[i].Has(a)
  }

  ghost function Free(hs: seq<Hole>): iset<int> {
    iset a: int | Covers(hs, a)
  }

  ghost function Range(va: int, size: int): iset<int> {
    iset a: int | Hole(va, size).Has(a)
  }

  lemma Covered(hs: seq<Hole>, i: int, a: int)
    requires 0 <= i < |hs| && hs[i].Has(a)
    ensures a in Free(hs)
  {
  }

  lemma EndIsNotFree(hs: seq<Hole>, i: int)
    requires Canonical(hs) && 0 <= i < |hs|
    ensures hs[i].End() !in Free(hs)
  {
  }

  lemma FreeBelowTop(hs: seq<Hole>, a: int)
    requires Canonical(hs) && hs != []
    ensures a in Free(hs) ==> a < hs[0].End()
  {
  }

  // Coalescing pays off here: a free interval never straddles two holes.
  lemma IntervalInOneHole(hs: seq<Hole>, va: int, size: int) returns (i: int)
    requires Canonical(hs) && size > 0 && Range(va, size) <= Free(hs)
    ensures 0 <= i < |hs| && hs[i].offset <= va && va + size <= hs[i].End()
  {
    assert va in Range(va, size);
    i :| 0 <= i < |hs| && hs[i].Has(va);
    EndIsNotFree(hs, i);
  }

  lemma HoleIsFree(hs: seq<Hole>, i: int, va: int, size: int)
    requires 0 <= i < |hs| && hs[i].offset <= va && va + size <= hs[i].End()
    ensures Range(va, size) <= Free(hs)
  {
  }

  // ---- The list is the only canonical one for its set of free addresses. ----

  lemma {:induction false} FreeDeterminesHoles(xs: seq<Hole>, ys: seq<Hole>)
    requires Canonical(xs) && Canonical(ys) && Free(xs) == Free(ys)
    ensures xs == ys
  {
    if xs == [] {
      if ys != [] {
        Covered(ys, 0, ys[0].offset);
        assert false;
      }
    } else {
      Covered(xs, 0, xs[0].offset);
      assert Covers(ys, xs[0].offset);
      TopHoleInside(xs, ys);
      TopHoleInside(ys, xs);
      FreeOfRest(xs);
      FreeOfRest(ys);
      FreeDeterminesHoles(xs[1..], ys[1..]);
    }
  }

  lemma TopHoleInside(xs: seq<Hole>, ys: seq<Hole>)
    requires Canonical(xs) && Canonical(ys) && xs != [] && ys != [] && Free(xs) == Free(ys)
    ensures ys[0].offset <= xs[0].offset && xs[0].End() <= ys[0].End()
  {
    HoleIsFree(xs, 0, xs[0].offset, xs[0].size);
    var i := IntervalInOneHole(ys, xs[0].offset, xs[0].size);
    Covered(ys, 0, ys[0].offset);
    FreeBelowTop(xs, ys[0].offset);
  }

  lemma FreeOfRest(hs: seq<Hole>)
    requires Canonical(hs) && hs != []
    ensures Canonical(hs[1..])
    ensures Free(hs[1..]) == Free(hs) - Range(hs[0].offset, hs[0].size)
  {
  }

  ghost predicate Within(hs: seq<Hole>, max: int) {
    forall i :: 0 <= i < |hs| ==> 0 <= hs[i].offset && hs[i].End() <= max
  }

  // ---- Replacing a stretch of holes by others. ----

  function Splice(hs: seq<Hole>, i: nat, j: nat, mid: seq<Hole>): seq<Hole>
    requires i <= j <= |hs|
  {
    hs[..i] + mid + hs[j..]
  }

  lemma UpdateIsSplice(hs: seq<Hole>, i: nat, h: Hole)
    requires i < |hs|
    ensures hs[i := h] == Splice(hs, i, i + 1, [h])
  {
  }

  lemma SplitIsSplice(hs: seq<Hole>, i: nat, upper: Hole, lower: Hole)
    requires i < |hs|
    ensures (hs[..i + 1] + [lower] + hs[i + 1..])[i := upper] == Splice(hs, i, i + 1, [upper, lower])
  {
  }

  lemma MergeIsSplice(hs: seq<Hole>, p: nat, upper: Hole, h: Hole)
    requires 0 < p < |hs|
    ensures var grown := hs[p - 1 := upper][p := h];
            grown[..p - 1] + grown[p..] == Splice(hs, p - 1, p + 1, [h])
  {
  }

  lemma FreeConcat(xs: seq<Hole>, ys: seq<Hole>)
    ensures Free(xs + ys) == Free(xs) + Free(ys)
  {
    var zs := xs + ys;
    forall a ensures a in Free(zs) <==> a in Free(xs) || a in Free(ys) {
      if i :| 0 <= i < |xs| && xs[i].Has(a) { assert zs[i].Has(a); }
      if i :| 0 <= i < |ys| && ys[i].Has(a) { assert zs[|xs| + i].Has(a); }
      if i :| 0 <= i < |zs| && zs[i].Has(a) {
        if i < |xs| { assert xs[i].Has(a); } else { assert ys[i - |xs|].Has(a); }
      }
    }
  }

  lemma StretchApart(hs: seq<Hole>, i: nat, j: nat)
    requires Canonical(hs) && i <= j <= |hs|
    ensures Free(hs[i..j]) !! Free(hs[..i]) && Free(hs[i..j]) !! Free(hs[j..])
  {
  }

  lemma SpliceFree(hs: seq<Hole>, i: nat, j: nat, mid: seq<Hole>)
    requires Canonical(hs) && i <= j <= |hs|
    ensures Free(Splice(hs, i, j, mid)) == (Free(hs) - Free(hs[i..j])) + Free(mid)
  {
    ThreeParts(hs[..i], mid, hs[j..]);
    assert hs == hs[..i] + hs[i..j] + hs[j..];
    ThreeParts(hs[..i], hs[i..j], hs[j..]);
    StretchApart(hs, i, j);
    MiddleSwapped(Free(hs[..i]), Free(hs[i..j]), Free(hs[j..]), Free(mid));
  }

  lemma ThreeParts(xs: seq<Hole>, ys: seq<Hole>, zs: seq<Hole>)
    ensures Free(xs + ys + zs) == Free(xs) + Free(ys) + Free(zs)
  {
    FreeConcat(xs + ys, zs);
    FreeConcat(xs, ys);
  }

  lemma MiddleSwapped<T>(x: iset<T>, y: iset<T>, z: iset<T>, m: iset<T>)
    requires y !! x && y !! z
    ensures ((x + y + z) - y) + m == x + m + z
  {
  }

  lemma SpliceCanonical(hs: seq<Hole>, i: nat, j: nat, mid: seq<Hole>)
    requires Canonical(hs) && i <= j <= |hs| && Canonical(mid)
    requires forall k :: 0 <= k < |mid| && i > 0 ==> mid[k].End() < hs[i - 1].offset
    requires forall k :: 0 <= k < |mid| && j < |hs| ==> hs[j].End() < mid[k].offset
    ensures Canonical(Splice(hs, i, j, mid))
  {
  }

  lemma FreeOfOne(h: Hole)
    ensures Free([h]) == Range(h.offset, h.size)
  {
    forall a ensures a in Free([h]) <==> h.Has(a) {
      if h.Has(a) { assert [h][0].Has(a); }
    }
  }

  lemma FreeOfTwo(g: Hole, h: Hole)
    ensures Free([g, h]) == Range(g.offset, g.size) + Range(h.offset, h.size)
  {
    FreeOfOne(g);
    FreeOfOne(h);
    FreeConcat([g], [h]);
    assert [g, h] == [g] + [h];
  }

  // ---- Taking [lo, hi) out of one hole: the four cases of subtract_hole. ----

  function Piece(offset: int, size: int): seq<Hole> {
    if size > 0 then [Hole(offset, size)] else []
  }

  function Remainder(h: Hole, lo: int, hi: int): seq<Hole> {
    Piece(hi, h.End() - hi) + Piece(h.offset, lo - h.offset)
  }

  lemma FreeOfPiece(offset: int, size: int)
    ensures Free(Piece(offset, size)) == Range(offset, size)
  {
    if size > 0 { FreeOfOne(Hole(offset, size)); }
  }

  lemma RangeMinus(h: Hole, lo: int, hi: int)
    requires h.offset <= lo <= hi <= h.End()
    ensures Range(hi, h.End() - hi) + Range(h.offset, lo - h.offset) == Range(h.offset, h.size) - Range(lo, hi - lo)
  {
  }

  lemma CutByCase(hs: seq<Hole>, i: nat, lo: int, hi: int)
    requires i < |hs|
    ensures var (h, cut) := (hs[i], Splice(hs, i, i + 1, Remainder(hs[i], lo, hi)));
            var (upper, lower) := (Hole(hi, h.End() - hi), Hole(h.offset, lo - h.offset));
            cut == if h.offset < lo && hi < h.End() then Splice(hs, i, i + 1, [upper, lower])
                   else if h.offset < lo then hs[i := lower]
                   else if hi < h.End() then hs[i := upper]
                   else hs[..i] + hs[i + 1..]
  {
  }

  lemma RemainderOfHole(h: Hole, lo: int, hi: int)
    requires h.offset <= lo < hi <= h.End()
    ensures Canonical(Remainder(h, lo, hi))
    ensures Free(Remainder(h, lo, hi)) == Range(h.offset, h.size) - Range(lo, hi - lo)
  {
    FreeConcat(Piece(hi, h.End() - hi), Piece(h.offset, lo - h.offset));
    FreeOfPiece(hi, h.End() - hi);
    FreeOfPiece(h.offset, lo - h.offset);
    RangeMinus(h, lo, hi);
  }

  lemma CarveFree(hs: seq<Hole>, i: nat, lo: int, hi: int)
    requires Canonical(hs) && i < |hs| && hs[i].offset <= lo < hi <= hs[i].End()
    ensures Free(Splice(hs, i, i + 1, Remainder(hs[i], lo, hi))) == Free(hs) - Range(lo, hi - lo)
  {
    var h := hs[i];
    RemainderOfHole(h, lo, hi);
    SpliceFree(hs, i, i + 1, Remainder(h, lo, hi));
    assert hs[i..i + 1] == [h];
    FreeOfOne(h);
    HoleIsFree(hs, i, h.offset, h.size);
    HolePart(h, lo, hi);
    CutUnion(Free(hs), Range(h.offset, h.size), Range(lo, hi - lo));
  }

  lemma HolePart(h: Hole, lo: int, hi: int)
    requires h.offset <= lo < hi <= h.End()
    ensures Range(lo, hi - lo) <= Range(h.offset, h.size)
  {
  }

  lemma CutUnion<T>(f: iset<T>, x: iset<T>, r: iset<T>)
    requires r <= x <= f
    ensures (f - x) + (x - r) == f - r
  {
  }

  lemma CarveHole(hs: seq<Hole>, i: nat, lo: int, hi: int)
    requires Canonical(hs) && i < |hs| && hs[i].offset <= lo < hi <= hs[i].End()
    ensures var post := Splice(hs, i, i + 1, Remainder(hs[i], lo, hi));
            Canonical(post) && Free(post) == Free(hs) - Range(lo, hi - lo)
  {
    CarveFree(hs, i, lo, hi);
    assert Canonical(Remainder(hs[i], lo, hi));
    SpliceCanonical(hs, i, i + 1, Remainder(hs[i], lo, hi));
  }

  // A zero-size carve is the one way to break the form: it leaves two touching holes,
  // exactly when it lands strictly inside the hole. The free set is right regardless.
  lemma CarveCanonicalIff(hs: seq<Hole>, i: nat, lo: int, hi: int)
    requires Canonical(hs) && i < |hs| && hs[i].offset <= lo <= hi <= hs[i].End()
    ensures Canonical(Splice(hs, i, i + 1, Remainder(hs[i], lo, hi)))
            <==> lo < hi || lo == hs[i].offset || hi == hs[i].End()
    ensures Free(Splice(hs, i, i + 1, Remainder(hs[i], lo, hi))) == Free(hs) - Range(lo, hi - lo)
  {
    var h, post := hs[i], Splice(hs, i, i + 1, Remainder(hs[i], lo, hi));
    if lo < hi {
      CarveHole(hs, i, lo, hi);
    } else if lo == h.offset || lo == h.End() {
      assert Remainder(h, lo, hi) == [h] && post == hs;
      assert Range(lo, hi - lo) == iset{};
    } else {
      var upper, lower := Hole(hi, h.End() - hi), Hole(h.offset, lo - h.offset);
      assert post[i] == upper && post[i + 1] == lower;
      assert !(post[i + 1].End() < post[i].offset);
      SpliceFree(hs, i, i + 1, [upper, lower]);
      assert hs[i..i + 1] == [h];
      FreeOfOne(h);
      FreeOfTwo(upper, lower);
      HoleIsFree(hs, i, h.offset, h.size);
      assert Range(lo, hi - lo) == iset{};
      assert Remainder(h, lo, hi) == [upper, lower];
    }
  }

  // The carve needs a new hole exactly when both neighbours of the range are free.
  ghost predicate Interior(free: iset<int>, va: int, size: int) {
    va - 1 in free && va + size in free
  }

  lemma InteriorOfHole(hs: seq<Hole>, i: nat, va: int, size: int)
    requires Canonical(hs) && i < |hs| && size > 0
    requires hs[i].offset <= va && va + size <= hs[i].End()
    ensures Interior(Free(hs), va, size) <==> hs[i].offset < va && va + size < hs[i].End()
  {
  }

  // ---- Giving [va, va + size) back between two neighbouring holes. ----

  // p holes lie above the range and the others below it.
  ghost predicate Between(hs: seq<Hole>, p: nat, va: int, size: int) {
    && p <= |hs|
    && (p > 0 ==> va + size <= hs[p - 1].offset)
    && (p < |hs| ==> hs[p].End() <= va)
  }

  lemma BetweenByOffsets(hs: seq<Hole>, p: nat, va: int, size: int)
    requires Canonical(hs) && p <= |hs| && size > 0
    requires Range(va, size) !! Free(hs)
    requires p > 0 ==> va <= hs[p - 1].offset
    requires p < |hs| ==> hs[p].offset < va
    ensures Between(hs, p, va, size)
  {
    if p > 0 && hs[p - 1].offset < va + size {
      assert hs[p - 1].offset in Range(va, size);
      Covered(hs, p - 1, hs[p - 1].offset);
    }
    if p < |hs| && va < hs[p].End() {
      assert va in Range(va, size);
      Covered(hs, p, va);
    }
  }

  lemma NeighboursFree(hs: seq<Hole>, p: nat, va: int, size: int)
    requires Canonical(hs) && size > 0 && Between(hs, p, va, size)
    ensures va + size in Free(hs) <==> p > 0 && hs[p - 1].offset == va + size
    ensures va - 1 in Free(hs) <==> p < |hs| && hs[p].End() == va
  {
  }

  predicate JoinsUpper(hs: seq<Hole>, p: nat, end: int)
    requires p <= |hs|
  {
    p > 0 && hs[p - 1].offset == end
  }

  predicate JoinsLower(hs: seq<Hole>, p: nat, va: int)
    requires p <= |hs|
  {
    p < |hs| && hs[p].End() == va
  }

  // The hole the range ends up in: it absorbs whichever neighbour it touches.
  function GrownHole(hs: seq<Hole>, p: nat, va: int, size: int): Hole
    requires p <= |hs|
  {
    var lo := if JoinsLower(hs, p, va) then hs[p].offset else va;
    var hi := if JoinsUpper(hs, p, va + size) then hs[p - 1].End() else va + size;
    Hole(lo, hi - lo)
  }

  function Absorbed(hs: seq<Hole>, p: nat, va: int, size: int): (nat, nat)
    requires p <= |hs|
  {
    (if JoinsUpper(hs, p, va + size) then p - 1 else p, if JoinsLower(hs, p, va) then p + 1 else p)
  }

  // The hole list after the range is given back.
  function Restored(hs: seq<Hole>, p: nat, va: int, size: int): seq<Hole>
    requires p <= |hs|
  {
    var (i, j) := Absorbed(hs, p, va, size);
    Splice(hs, i, j, [GrownHole(hs, p, va, size)])
  }

  lemma RestoredByCase(hs: seq<Hole>, p: nat, va: int, size: int)
    requires p <= |hs| && !JoinsUpper(hs, p, va + size)
    ensures JoinsLower(hs, p, va) ==> Restored(hs, p, va, size) == hs[p := Hole(hs[p].offset, hs[p].size + size)]
    ensures !JoinsLower(hs, p, va) ==> Restored(hs, p, va, size) == hs[..p] + [Hole(va, size)] + hs[p..]
  {
  }

  lemma RestoredUpperByCase(hs: seq<Hole>, p: nat, va: int, size: int)
    requires p <= |hs| && JoinsUpper(hs, p, va + size)
    ensures var upper := Hole(va, hs[p - 1].size + size);
            Restored(hs, p, va, size) ==
            if JoinsLower(hs, p, va) then
              var grown := hs[p - 1 := upper][p := Hole(hs[p].offset, hs[p].size + upper.size)];
              grown[..p - 1] + grown[p..]
            else hs[p - 1 := upper]
  {
    if JoinsLower(hs, p, va) {
      MergeIsSplice(hs, p, Hole(va, hs[p - 1].size + size), GrownHole(hs, p, va, size));
    } else {
      UpdateIsSplice(hs, p - 1, GrownHole(hs, p, va, size));
    }
  }

  lemma GrownStretch(hs: seq<Hole>, p: nat, va: int, size: int)
    requires Canonical(hs) && size > 0 && Between(hs, p, va, size)
    ensures var (i, j) := Absorbed(hs, p, va, size);
            var h := GrownHole(hs, p, va, size);
            Free([h]) == Free(hs[i..j]) + Range(va, size)
  {
    FreeOfOne(GrownHole(hs, p, va, size));
    if JoinsUpper(hs, p, va + size) && JoinsLower(hs, p, va) {
      assert hs[p - 1..p + 1] == [hs[p - 1], hs[p]];
      FreeOfTwo(hs[p - 1], hs[p]);
    } else if JoinsUpper(hs, p, va + size) {
      assert hs[p - 1..p] == [hs[p - 1]];
      FreeOfOne(hs[p - 1]);
    } else if JoinsLower(hs, p, va) {
      assert hs[p..p + 1] == [hs[p]];
      FreeOfOne(hs[p]);
    } else {
      assert hs[p..p] == [];
    }
  }

  lemma GrownHoleApart(hs: seq<Hole>, p: nat, va: int, size: int)
    requires Canonical(hs) && size > 0 && Between(hs, p, va, size)
    ensures var (i, j) := Absorbed(hs, p, va, size);
            var h := GrownHole(hs, p, va, size);
            && h.size > 0
            && (i > 0 ==> h.End() < hs[i - 1].offset)
            && (j < |hs| ==> hs[j].End() < h.offset)
  {
  }

  lemma RestoreRange(hs: seq<Hole>, p: nat, va: int, size: int)
    requires Canonical(hs) && size > 0 && Between(hs, p, va, size)
    ensures Canonical(Restored(hs, p, va, size))
    ensures Free(Restored(hs, p, va, size)) == Free(hs) + Range(va, size)
  {
    var (i, j) := Absorbed(hs, p, va, size);
    var h := GrownHole(hs, p, va, size);
    GrownHoleApart(hs, p, va, size);
    SpliceCanonical(hs, i, j, [h]);
    GrownStretch(hs, p, va, size);
    SpliceFree(hs, i, j, [h]);
    StretchIsFree(hs, i, j);
    SwapUnion(Free(hs), Free(hs[i..j]), Range(va, size));
  }

  lemma RestoredWithin(hs: seq<Hole>, p: nat, va: int, size: int, max: int)
    requires Within(hs, max) && p <= |hs| && 0 <= va && va + size <= max
    ensures Within(Restored(hs, p, va, size), max)
  {
  }

  lemma SwapUnion<T>(f: iset<T>, x: iset<T>, r: iset<T>)
    requires x <= f
    ensures (f - x) + (x + r) == f + r
  {
  }

  lemma StretchIsFree(hs: seq<Hole>, i: nat, j: nat)
    requires i <= j <= |hs|
    ensures Free(hs[i..j]) <= Free(hs)
  {
  }
}
