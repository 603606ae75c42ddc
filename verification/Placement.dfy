// Where a request lands: the test the search loops make on one hole, and what the
// first hole that passes means for the whole free set (amdgpu/amdgpu_vamgr.c:117-161).
module Placement {
  import opened UtilMath
  import opened Holes
  import opened Wrappers

  // A search after rounding; base 0 stands for "no base required".
  datatype Request = Request(size: int, alignment: int, base: int, fromTop: bool) {
    ghost predicate InWords() {
      0 <= size < TWO_TO_64 && 0 < alignment && 0 <= base < TWO_TO_64
    }

    ghost predicate Valid() {
      InWords() && 0 < size
    }
  }

  function Wrap64(x: int): int { Wrap(x, TWO_TO_64) }

  ghost predicate InSpace(h: Hole) {
    0 <= h.offset && 0 <= h.size && h.End() < TWO_TO_64
  }

  // One pass of a search loop's body on 64-bit words.
  function Place(h: Hole, req: Request): Option<int>
    requires req.alignment > 0
  {
    if req.base != 0 then
      if h.offset > req.base || Wrap64(h.End()) < Wrap64(req.base + req.size) then None else Some(req.base)
    else if !req.fromTop then
      var waste := h.offset % req.alignment;
      var offset := Wrap64(h.offset + (if waste == 0 then 0 else req.alignment - waste));
      if offset >= Wrap64(h.End()) || req.size > Wrap64(h.End() - offset) then None else Some(offset)
    else if req.size > h.size then None
    else
      var last := h.End() - req.size;
      var offset := last - last % req.alignment;
      if offset < h.offset then None else Some(offset)
  }

  ghost predicate Allowed(va: int, req: Request)
    requires req.alignment > 0
  {
    if req.base != 0 then va == req.base else va % req.alignment == 0
  }

  // c is no better a place than va for the direction of the search.
  ghost predicate NotBetter(c: int, va: int, req: Request) {
    if req.fromTop then c <= va else va <= c
  }

  ghost predicate FitsHole(h: Hole, va: int, req: Request)
    requires req.alignment > 0
  {
    h.offset <= va && va + req.size <= h.End() && Allowed(va, req)
  }

  ghost predicate BestInHole(h: Hole, va: int, req: Request)
    requires req.alignment > 0
  {
    FitsHole(h, va, req) && forall c :: FitsHole(h, c, req) ==> NotBetter(c, va, req)
  }

  // The test on one hole says what it should: the best place in it, or that there is none.
  ghost predicate PlaceIsRight(h: Hole, req: Request)
    requires req.alignment > 0
  {
    match Place(h, req)
    case Some(va) => BestInHole(h, va, req)
    case None => forall c :: !FitsHole(h, c, req)
  }

  // Either no sum in the test wraps past 2^64, or the wrapped value still fails the test.
  ghost predicate WrapHarmless(h: Hole, req: Request)
    requires req.alignment > 0
  {
    if req.base != 0 then
      || req.base + req.size < TWO_TO_64
      || req.base < h.offset
      || h.End() < req.base + req.size - TWO_TO_64
    else if !req.fromTop then
      || RoundUp(h.offset, req.alignment) < TWO_TO_64
      || h.End() < Wrap64(RoundUp(h.offset, req.alignment)) + Max(req.size, 1)
    else true
  }

  lemma PlaceRightIffWrapHarmless(h: Hole, req: Request)
    requires InSpace(h) && req.Valid()
    ensures PlaceIsRight(h, req) <==> WrapHarmless(h, req)
  {
    if req.base != 0 {
      BasePlace(h, req);
    } else if req.fromTop {
      TopPlace(h, req);
    } else {
      BottomPlace(h, req);
    }
  }

  lemma BasePlace(h: Hole, req: Request)
    requires InSpace(h) && req.Valid() && req.base != 0
    ensures PlaceIsRight(h, req) <==> WrapHarmless(h, req)
  {
  }

  lemma TopPlace(h: Hole, req: Request)
    requires InSpace(h) && req.Valid() && req.base == 0 && req.fromTop
    ensures PlaceIsRight(h, req)
  {
    var last := h.End() - req.size;
    var va := last - last % req.alignment;
    MultipleBelow(last, req.alignment);
    forall c | FitsHole(h, c, req)
      ensures c <= va
    {
      MultiplesApart(va, c, req.alignment);
    }
  }

  lemma BottomPlace(h: Hole, req: Request)
    requires InSpace(h) && req.Valid() && req.base == 0 && !req.fromTop
    ensures PlaceIsRight(h, req) <==> WrapHarmless(h, req)
  {
    var up := RoundUp(h.offset, req.alignment);
    RoundUpIsLeast(h.offset, req.alignment);
    var va := Wrap64(up);
    assert Place(h, req) == if va >= h.End() || req.size > h.End() - va then None else Some(va);
    assert forall c :: FitsHole(h, c, req) ==> up <= c;
    if up < TWO_TO_64 {
      assert Place(h, req).Some? ==> FitsHole(h, up, req);
    } else {
      assert forall c :: !FitsHole(h, c, req);
    }
  }

  // The wrap is real: with a hole at the top of the address space and a large alignment the
  // bottom-up test accepts address 0, which the hole does not contain.
  lemma WrappedPlaceLeavesTheHole()
    ensures var h := Hole(0xffff_8000_0000_0000, 0x7fff_ffe0_0000);
            var req := Request(0x1000, 0x8000_0000_0000_0000, 0, false);
            Place(h, req) == Some(0) && !h.Has(0)
  {
  }

  // A hole the search never gets to does no harm: here a lower one serves first.
  lemma UnreachedWrapIsHarmless()
    ensures var hs := [Hole(0xffff_8000_0000_0000, 0x7fff_ffe0_0000), Hole(0x8000_0000_0000_0000, 0x2000)];
            var req := Request(0x1000, 0x8000_0000_0000_0000, 0, false);
            && !WrapHarmless(hs[0], req)
            && SearchHarmless(hs, req) && FirstHit(hs, 1, req)
            && Place(hs[1], req) == Some(0x8000_0000_0000_0000)
  {
    var hs := [Hole(0xffff_8000_0000_0000, 0x7fff_ffe0_0000), Hole(0x8000_0000_0000_0000, 0x2000)];
    var req := Request(0x1000, 0x8000_0000_0000_0000, 0, false);
    assert Place(hs[1], req) == Some(0x8000_0000_0000_0000);
    assert forall i :: Reached(hs, i, req) ==> i == 1;
  }

  // Requests that cannot wrap anywhere below vaMax.
  lemma NoWrapIsHarmless(h: Hole, req: Request, vaMax: int)
    requires InSpace(h) && req.Valid() && h.End() <= vaMax
    requires if req.base != 0 then req.base + req.size < TWO_TO_64 else vaMax + req.alignment <= TWO_TO_64
    ensures WrapHarmless(h, req)
  {
    RoundUpIsLeast(h.offset, req.alignment);
  }

  // ---- From one hole to the whole free set. ----

  ghost predicate Candidate(free: iset<int>, va: int, req: Request)
    requires req.alignment > 0
  {
    Range(va, req.size) <= free && Allowed(va, req)
  }

  // The lowest candidate bottom-up, the highest top-down.
  ghost predicate Best(free: iset<int>, va: int, req: Request)
    requires req.alignment > 0
  {
    Candidate(free, va, req) && forall c :: Candidate(free, c, req) ==> NotBetter(c, va, req)
  }

  ghost predicate AllInSpace(hs: seq<Hole>) {
    forall i :: 0 <= i < |hs| ==> InSpace(hs[i])
  }

  ghost predicate NoPlace(hs: seq<Hole>, req: Request)
    requires req.alignment > 0
  {
    forall i :: 0 <= i < |hs| ==> Place(hs[i], req) == None
  }

  // The search gets as far as hs[i]: no hole before it in search order passes the test.
  ghost predicate Reached(hs: seq<Hole>, i: int, req: Request)
    requires req.alignment > 0
  {
    && 0 <= i < |hs|
    && (req.fromTop ==> forall j :: 0 <= j < i ==> Place(hs[j], req) == None)
    && (!req.fromTop ==> forall j :: i < j < |hs| ==> Place(hs[j], req) == None)
  }

  // hs[i] is the first hole in search order that passes the test.
  ghost predicate FirstHit(hs: seq<Hole>, i: int, req: Request)
    requires req.alignment > 0
  {
    Reached(hs, i, req) && Place(hs[i], req).Some?
  }

  ghost predicate SearchHarmless(hs: seq<Hole>, req: Request)
    requires req.alignment > 0
  {
    forall i :: Reached(hs, i, req) ==> WrapHarmless(hs[i], req)
  }

  // The search says what it should: the first hit fits its hole and is the best place of the
  // whole free set, and without a hit there is no place at all.
  ghost predicate SearchRight(hs: seq<Hole>, req: Request)
    requires req.alignment > 0
  {
    && (forall i :: FirstHit(hs, i, req) ==>
          FitsHole(hs[i], Place(hs[i], req).value, req) && Best(Free(hs), Place(hs[i], req).value, req))
    && (NoPlace(hs, req) ==> forall va :: !Candidate(Free(hs), va, req))
  }

  // The search is right exactly when wrap does no harm on the holes it gets to.
  lemma SearchRightIffHarmless(hs: seq<Hole>, req: Request)
    requires Canonical(hs) && AllInSpace(hs) && req.Valid()
    ensures SearchRight(hs, req) <==> SearchHarmless(hs, req)
  {
    if SearchHarmless(hs, req) {
      forall i | FirstHit(hs, i, req)
        ensures FitsHole(hs[i], Place(hs[i], req).value, req) && Best(Free(hs), Place(hs[i], req).value, req)
      {
        FirstHitIsBest(hs, i, req);
      }
      if NoPlace(hs, req) { NoPlaceNoCandidate(hs, req); }
    } else {
      var i :| Reached(hs, i, req) && !WrapHarmless(hs[i], req);
      HarmfulPlaceOutside(hs[i], req);
      assert FirstHit(hs, i, req);
    }
  }

  // A harmful wrap shows as a hit whose place is outside its hole.
  lemma HarmfulPlaceOutside(h: Hole, req: Request)
    requires InSpace(h) && req.Valid() && !WrapHarmless(h, req)
    ensures Place(h, req).Some? && !FitsHole(h, Place(h, req).value, req)
  {
    RoundUpIsLeast(h.offset, req.alignment);
  }

  lemma NoPlaceNoFit(h: Hole, req: Request)
    requires InSpace(h) && req.Valid() && Place(h, req) == None
    ensures forall c :: !FitsHole(h, c, req)
  {
    PlaceRightIffWrapHarmless(h, req);
  }

  lemma NoPlaceNoCandidate(hs: seq<Hole>, req: Request)
    requires (Canonical(hs) || Barren(hs)) && AllInSpace(hs) && req.Valid() && NoPlace(hs, req)
    ensures forall va :: !Candidate(Free(hs), va, req)
  {
    forall va | Candidate(Free(hs), va, req) ensures false {
      assert va in Range(va, req.size);
      var i := IntervalInOneHole(hs, va, req.size);
      assert FitsHole(hs[i], va, req);
      NoPlaceNoFit(hs[i], req);
    }
  }

  lemma FirstHitIsBest(hs: seq<Hole>, i: int, req: Request)
    requires (Canonical(hs) || Barren(hs)) && AllInSpace(hs) && req.Valid()
    requires FirstHit(hs, i, req) && WrapHarmless(hs[i], req)
    ensures BestInHole(hs[i], Place(hs[i], req).value, req)
    ensures Canonical(hs) && Best(Free(hs), Place(hs[i], req).value, req)
  {
    var va := Place(hs[i], req).value;
    PlaceRightIffWrapHarmless(hs[i], req);
    HoleIsFree(hs, i, va, req.size);
    forall c | Candidate(Free(hs), c, req)
      ensures NotBetter(c, va, req)
    {
      var j := IntervalInOneHole(hs, c, req.size);
      assert FitsHole(hs[j], c, req);
      if Place(hs[j], req) == None { NoPlaceNoFit(hs[j], req); }
    }
  }

  // Requests of any size, 0 included, find a place inside the hole they hit.
  lemma HitInside(h: Hole, req: Request)
    requires InSpace(h) && req.InWords() && WrapHarmless(h, req) && Place(h, req).Some?
    ensures h.offset <= Place(h, req).value && Place(h, req).value + req.size <= h.End()
  {
    RoundUpIsLeast(h.offset, req.alignment);
    var last := h.End() - req.size;
    MultipleBelow(last, req.alignment);
  }

  // ---- What a search does to the list, hole by hole. ----

  // The place is taken out of hs[i], which needs a new hole when it leaves something on
  // both sides.
  ghost predicate TakenFrom(pre: seq<Hole>, i: nat, post: seq<Hole>, size: int, callocOk: bool, ret: Errno, va: int)
    requires i < |pre|
  {
    if pre[i].offset < va && va + size < pre[i].End() && !callocOk then ret == ENOMEM && post == pre
    else ret == Success && post == Splice(pre, i, i + 1, Remainder(pre[i], va, va + size))
  }

  ghost predicate Landed(pre: seq<Hole>, post: seq<Hole>, req: Request, callocOk: bool, ret: Errno, va: int)
    requires req.alignment > 0
  {
    if NoPlace(pre, req) then
      ret == ENOMEM && post == pre
    else
      exists i :: FirstHit(pre, i, req) && va == Place(pre[i], req).value
                  && TakenFrom(pre, i, post, req.size, callocOk, ret, va)
  }

  lemma LandedAt(pre: seq<Hole>, i: nat, post: seq<Hole>, req: Request, callocOk: bool, ret: Errno, va: int)
    requires req.alignment > 0 && FirstHit(pre, i, req) && va == Place(pre[i], req).value
    requires TakenFrom(pre, i, post, req.size, callocOk, ret, va)
    ensures Landed(pre, post, req, callocOk, ret, va)
  {
  }

  // ---- What the two list operations must do, in terms of the free set alone. ----

  // A search over the holes pre that leaves the holes post. callocOk says whether
  // the one allocation it may need succeeds.
  ghost predicate FindOutcome(pre: seq<Hole>, post: seq<Hole>, req: Request, callocOk: bool, ret: Errno, va: int)
    requires req.alignment > 0
  {
    if req.base % req.alignment != 0 then
      ret == EINVAL && post == pre
    else if forall c :: !Candidate(Free(pre), c, req) then
      ret == ENOMEM && post == pre
    else
      && Best(Free(pre), va, req)
      && if !callocOk && Interior(Free(pre), va, req.size) then
           ret == ENOMEM && post == pre
         else
           ret == Success && Canonical(post) && Free(post) == Free(pre) - Range(va, req.size)
  }

  // Read off the free set: when a search with memory at hand fails, and that what it
  // finds is the lowest or highest place anywhere.
  lemma SearchFailsExactly(pre: seq<Hole>, post: seq<Hole>, req: Request, ret: Errno, va: int)
    requires req.Valid() && FindOutcome(pre, post, req, true, ret, va)
    ensures ret == EINVAL <==> req.base % req.alignment != 0
    ensures req.base == 0 ==>
              (ret == ENOMEM <==> forall a :: a % req.alignment == 0 ==> !(Range(a, req.size) <= Free(pre)))
    ensures req.base != 0 && req.base % req.alignment == 0 ==>
              (ret == ENOMEM <==> !(Range(req.base, req.size) <= Free(pre)))
    ensures req.base == 0 && ret == Success ==>
              forall a :: a % req.alignment == 0 && Range(a, req.size) <= Free(pre) ==>
                if req.fromTop then a <= va else va <= a
  {
    assert forall a :: Candidate(Free(pre), a, req) <==> Range(a, req.size) <= Free(pre) && Allowed(a, req);
  }

  // Address 0, which va_range_free takes for an empty handle, is served bottom-up exactly
  // when the range from 0 is free, and top-down exactly when no higher aligned range is.
  lemma ServedAtZeroIff(pre: seq<Hole>, post: seq<Hole>, req: Request, callocOk: bool, va: int)
    requires req.Valid() && req.base == 0
    requires forall a :: a in Free(pre) ==> 0 <= a
    requires FindOutcome(pre, post, req, callocOk, Success, va)
    ensures !req.fromTop ==> (va == 0 <==> Range(0, req.size) <= Free(pre))
    ensures req.fromTop ==>
              (va == 0 <==> forall c :: c > 0 && c % req.alignment == 0 ==> !(Range(c, req.size) <= Free(pre)))
  {
    assert va in Range(va, req.size);
    DivModUnique(0, req.alignment, 0, 0);
    assert forall c :: Candidate(Free(pre), c, req) <==> Range(c, req.size) <= Free(pre) && c % req.alignment == 0;
    assert Candidate(Free(pre), va, req);
  }

  lemma LandedOutcome(pre: seq<Hole>, post: seq<Hole>, req: Request, callocOk: bool, ret: Errno, va: int, max: int)
    requires (Canonical(pre) || Barren(pre)) && AllInSpace(pre) && Within(pre, max) && req.Valid()
    requires SearchHarmless(pre, req) && req.base % req.alignment == 0
    requires Landed(pre, post, req, callocOk, ret, va)
    ensures (Canonical(post) || Barren(post)) && Within(post, max)
    ensures FindOutcome(pre, post, req, callocOk, ret, va)
  {
    if NoPlace(pre, req) {
      NoPlaceNoCandidate(pre, req);
    } else {
      var i :| FirstHit(pre, i, req) && va == Place(pre[i], req).value
               && TakenFrom(pre, i, post, req.size, callocOk, ret, va);
      FirstHitIsBest(pre, i, req);
      TakenOutcome(pre, i, post, req, callocOk, ret, va, max);
    }
  }

  lemma TakenOutcome(pre: seq<Hole>, i: nat, post: seq<Hole>, req: Request, callocOk: bool, ret: Errno, va: int,
                     max: int)
    requires Canonical(pre) && Within(pre, max) && req.Valid() && i < |pre|
    requires req.base % req.alignment == 0 && FitsHole(pre[i], va, req) && Best(Free(pre), va, req)
    requires TakenFrom(pre, i, post, req.size, callocOk, ret, va)
    ensures Canonical(post) && Within(post, max)
    ensures FindOutcome(pre, post, req, callocOk, ret, va)
  {
    TakenList(pre, i, post, req.size, callocOk, ret, va, max);
    BestOutcome(pre, post, req, callocOk, ret, va);
  }

  lemma TakenList(pre: seq<Hole>, i: nat, post: seq<Hole>, size: int, callocOk: bool, ret: Errno, va: int, max: int)
    requires Canonical(pre) && Within(pre, max) && i < |pre| && size > 0
    requires pre[i].offset <= va && va + size <= pre[i].End()
    requires TakenFrom(pre, i, post, size, callocOk, ret, va)
    ensures Canonical(post) && Within(post, max)
    ensures if !callocOk && Interior(Free(pre), va, size) then ret == ENOMEM && post == pre
            else ret == Success && Free(post) == Free(pre) - Range(va, size)
  {
    var split := pre[i].offset < va && va + size < pre[i].End();
    assert Interior(Free(pre), va, size) <==> split by {
      InteriorOfHole(pre, i, va, size);
    }
    TakenWithin(pre, i, post, size, callocOk, ret, va, max);
    if !split || callocOk {
      CutOut(pre, i, post, va, size);
    }
  }

  lemma CutOut(pre: seq<Hole>, i: nat, post: seq<Hole>, va: int, size: int)
    requires Canonical(pre) && i < |pre| && size > 0 && pre[i].offset <= va && va + size <= pre[i].End()
    requires post == Splice(pre, i, i + 1, Remainder(pre[i], va, va + size))
    ensures Canonical(post) && Free(post) == Free(pre) - Range(va, size)
  {
    var hi := va + size;
    var cut := Splice(pre, i, i + 1, Remainder(pre[i], va, hi));
    assert post == cut;
    assert Canonical(cut) && Free(cut) == Free(pre) - Range(va, size) by {
      CarveHole(pre, i, va, hi);
      assert hi - va == size;
    }
  }

  lemma TakenWithin(pre: seq<Hole>, i: nat, post: seq<Hole>, size: int, callocOk: bool, ret: Errno, va: int, max: int)
    requires Within(pre, max) && i < |pre| && size > 0
    requires pre[i].offset <= va && va + size <= pre[i].End()
    requires TakenFrom(pre, i, post, size, callocOk, ret, va)
    ensures Within(post, max)
  {
  }

  lemma BestOutcome(pre: seq<Hole>, post: seq<Hole>, req: Request, callocOk: bool, ret: Errno, va: int)
    requires req.alignment > 0 && req.base % req.alignment == 0
    requires Best(Free(pre), va, req)
    requires if !callocOk && Interior(Free(pre), va, req.size) then ret == ENOMEM && post == pre
             else ret == Success && Canonical(post) && Free(post) == Free(pre) - Range(va, req.size)
    ensures FindOutcome(pre, post, req, callocOk, ret, va)
  {
  }

  // ---- Searches for size 0. ----

  // A search for size 0 can land inside a hole and leave two holes that touch.
  lemma ZeroSizeCarveTouches()
    ensures var h := Hole(0x1000, 0x3000);
            && Place(h, Request(0, 0x2000, 0, false)) == Some(0x2000)
            && Canonical([h]) && !Canonical(Splice([h], 0, 1, Remainder(h, 0x2000, 0x2000)))
  {
    CarveCanonicalIff([Hole(0x1000, 0x3000)], 0, 0x2000, 0x2000);
  }

  lemma AtEdgeIff(hs: seq<Hole>, i: nat, va: int)
    requires Canonical(hs) && i < |hs| && hs[i].offset <= va <= hs[i].End()
    ensures Interior(Free(hs), va, 0) <==> hs[i].offset < va < hs[i].End()
  {
    if hs[i].offset < va < hs[i].End() {
      Covered(hs, i, va - 1);
      Covered(hs, i, va);
    }
    EndIsNotFree(hs, i);
  }

  // Where it lands: on or at the edge of a hole, at an allowed address; and it fails, with
  // memory at hand, only when no hole has an allowed address.
  lemma ZeroSizeLanded(pre: seq<Hole>, post: seq<Hole>, req: Request, callocOk: bool, ret: Errno, va: int)
    requires AllInSpace(pre) && req.InWords() && req.size == 0 && SearchHarmless(pre, req)
    requires Landed(pre, post, req, callocOk, ret, va)
    ensures ret == Success ==>
              && (exists i :: 0 <= i < |pre| && pre[i].offset <= va <= pre[i].End())
              && if req.base != 0 then va == req.base else va % req.alignment == 0
    ensures ret == ENOMEM && callocOk ==>
              forall i, a :: 0 <= i < |pre| && pre[i].Has(a) ==>
                if req.base != 0 then a != req.base else a % req.alignment != 0
  {
    if NoPlace(pre, req) {
      forall i, a | 0 <= i < |pre| && pre[i].Has(a)
        ensures if req.base != 0 then a != req.base else a % req.alignment != 0
      {
        ZeroSizeNoPlace(pre[i], req, a);
      }
    } else {
      var i :| FirstHit(pre, i, req) && va == Place(pre[i], req).value
               && TakenFrom(pre, i, post, 0, callocOk, ret, va);
      HitInside(pre[i], req);
      PlaceAllowed(pre[i], req);
    }
  }

  lemma ZeroSizeNoPlace(h: Hole, req: Request, a: int)
    requires InSpace(h) && req.InWords() && req.size == 0 && Place(h, req) == None && h.Has(a)
    ensures if req.base != 0 then a != req.base else a % req.alignment != 0
  {
    RoundUpIsLeast(h.offset, req.alignment);
    MultipleBelow(h.End(), req.alignment);
    if req.base == 0 && a % req.alignment == 0 {
      MultiplesApart(a, h.End() - h.End() % req.alignment, req.alignment);
    }
  }

  lemma PlaceAllowed(h: Hole, req: Request)
    requires InSpace(h) && req.InWords() && WrapHarmless(h, req) && Place(h, req).Some?
    ensures if req.base != 0 then Place(h, req).value == req.base else Place(h, req).value % req.alignment == 0
  {
    RoundUpIsLeast(h.offset, req.alignment);
    MultipleBelow(h.End() - req.size, req.alignment);
  }

  // It takes no address, and it leaves the list as it was unless it succeeds strictly
  // between two free addresses, which is exactly when the list stops being canonical.
  lemma ZeroSizeSearchIff(pre: seq<Hole>, post: seq<Hole>, req: Request, callocOk: bool, ret: Errno, va: int)
    requires Canonical(pre) && AllInSpace(pre) && req.InWords() && req.size == 0
    requires SearchHarmless(pre, req) && Landed(pre, post, req, callocOk, ret, va)
    ensures Free(post) == Free(pre)
    ensures Canonical(post) <==> !(ret == Success && Interior(Free(pre), va, 0))
    ensures Canonical(post) ==> post == pre
  {
    if !NoPlace(pre, req) {
      var i :| FirstHit(pre, i, req) && va == Place(pre[i], req).value
               && TakenFrom(pre, i, post, 0, callocOk, ret, va);
      HitInside(pre[i], req);
      AtEdgeIff(pre, i, va);
      CarveCanonicalIff(pre, i, va, va);
      assert Range(va, 0) == iset{};
      if ret == Success && Canonical(post) {
        FreeDeterminesHoles(post, pre);
      }
    }
  }

  // What the search finds in a manager made over an empty range, and does to it.
  lemma ZeroSizeInBarren(pre: seq<Hole>, post: seq<Hole>, req: Request, callocOk: bool, ret: Errno, va: int)
    requires Barren(pre) && AllInSpace(pre) && req.InWords() && req.size == 0
    requires SearchHarmless(pre, req) && Landed(pre, post, req, callocOk, ret, va)
    ensures post == if ret == Success then [] else pre
    ensures Free(pre) == iset{}
  {
    if !NoPlace(pre, req) {
      var i :| FirstHit(pre, i, req) && va == Place(pre[i], req).value
               && TakenFrom(pre, i, post, 0, callocOk, ret, va);
      HitInside(pre[i], req);
    }
  }

  // Giving a range back: it is lost exactly when no neighbour is free and calloc fails.
  ghost predicate FreeOutcome(pre: seq<Hole>, post: seq<Hole>, va: int, size: int, callocOk: bool) {
    if callocOk || va - 1 in Free(pre) || va + size in Free(pre) then
      Canonical(post) && Free(post) == Free(pre) + Range(va, size)
    else
      post == pre
  }

  lemma GivenBackOutcome(pre: seq<Hole>, p: nat, post: seq<Hole>, va: int, size: int, callocOk: bool, max: int)
    requires Canonical(pre) && Within(pre, max) && p <= |pre|
    requires 0 < size && 0 <= va && va + size <= max && Range(va, size) !! Free(pre)
    requires p > 0 ==> va <= pre[p - 1].offset
    requires p < |pre| ==> pre[p].offset < va
    requires post == if JoinsUpper(pre, p, va + size) || JoinsLower(pre, p, va) || callocOk
                     then Restored(pre, p, va, size) else pre
    ensures Canonical(post) && Within(post, max)
    ensures FreeOutcome(pre, post, va, size, callocOk)
  {
    BetweenByOffsets(pre, p, va, size);
    NeighboursFree(pre, p, va, size);
    RestoreRange(pre, p, va, size);
    RestoredWithin(pre, p, va, size, max);
  }

  // ---- Giving back size 0. ----

  ghost predicate Touches(hs: seq<Hole>, va: int) {
    exists i :: 0 <= i < |hs| && (hs[i].offset == va || hs[i].End() == va)
  }

  lemma TouchesAtPlace(hs: seq<Hole>, p: nat, va: int)
    requires (Canonical(hs) || Barren(hs)) && p <= |hs|
    requires p > 0 ==> va <= hs[p - 1].offset
    requires p < |hs| ==> hs[p].offset < va
    ensures Touches(hs, va) <==> JoinsUpper(hs, p, va) || JoinsLower(hs, p, va)
    ensures !(JoinsUpper(hs, p, va) && JoinsLower(hs, p, va))
  {
    assert forall i :: p < i < |hs| ==> hs[i].End() < hs[p].offset;
    assert forall i :: 0 <= i < p - 1 ==> hs[p - 1].End() < hs[i].offset;
  }

  lemma JoinedByNothing(hs: seq<Hole>, p: nat, va: int)
    requires p <= |hs| && JoinsUpper(hs, p, va) != JoinsLower(hs, p, va)
    ensures Restored(hs, p, va, 0) == hs
  {
    if JoinsUpper(hs, p, va) {
      assert GrownHole(hs, p, va, 0) == hs[p - 1];
    } else {
      assert GrownHole(hs, p, va, 0) == hs[p];
    }
  }

  lemma EmptyHoleInserted(hs: seq<Hole>, p: nat, va: int)
    requires p <= |hs|
    ensures Free(hs[..p] + [Hole(va, 0)] + hs[p..]) == Free(hs)
  {
    FreeConcat(hs[..p] + [Hole(va, 0)], hs[p..]);
    FreeConcat(hs[..p], [Hole(va, 0)]);
    FreeConcat(hs[..p], hs[p..]);
    FreeOfOne(Hole(va, 0));
    assert hs == hs[..p] + hs[p..];
  }

  // Giving back size 0 changes nothing when the address is at the edge of a hole or calloc
  // fails, and otherwise leaves a hole of size 0 behind; no address becomes free.
  lemma ZeroSizeFreeIff(pre: seq<Hole>, p: nat, post: seq<Hole>, va: int, callocOk: bool)
    requires (Canonical(pre) || Barren(pre)) && p <= |pre|
    requires p > 0 ==> va <= pre[p - 1].offset
    requires p < |pre| ==> pre[p].offset < va
    requires post == if JoinsUpper(pre, p, va) || JoinsLower(pre, p, va) || callocOk
                     then Restored(pre, p, va, 0) else pre
    ensures Free(post) == Free(pre)
    ensures post == if Touches(pre, va) || !callocOk then pre else pre[..p] + [Hole(va, 0)] + pre[p..]
  {
    TouchesAtPlace(pre, p, va);
    if Touches(pre, va) {
      JoinedByNothing(pre, p, va);
    } else {
      RestoredByCase(pre, p, va, 0);
      EmptyHoleInserted(pre, p, va);
    }
  }
}
