// One GPU virtual-address manager (amdgpu/amdgpu_vamgr.c): hole nodes on a circular
// list, searched, split and merged in place.
module VaManagers {
  import opened UtilMath
  import opened Holes
  import opened IntrusiveLists
  import opened Placement
  import opened Wrappers
  import opened VaRuns

  // struct amdgpu_bo_va_hole: the link and the hole it is embedded in.
  type HoleNode = Node<Hole>

  const INVALID_VA_ADDRESS := 0xffff_ffff_ffff_ffff

  // The request find_va works on after its two adjustments.
  function Rounded(vaAlignment: int, size: int, alignment: int, base: int, fromTop: bool): Request
    requires size >= 0 && vaAlignment > 0
  {
    Request(Align(size, vaAlignment, TWO_TO_64), Max(alignment, vaAlignment), base, fromTop)
  }

  lemma RoundedSize(vaAlignment: int, size: int)
    requires IsPowerOfTwo(vaAlignment) && vaAlignment < TWO_TO_32
    requires 0 < size && size + vaAlignment - 1 < TWO_TO_64
    ensures vaAlignment > 0
    ensures Align(size, vaAlignment, TWO_TO_64) == RoundUp(size, vaAlignment)
    ensures 0 < size <= RoundUp(size, vaAlignment) < TWO_TO_64
    ensures RoundUp(size, vaAlignment) + vaAlignment - 1 < TWO_TO_64
    ensures Align(RoundUp(size, vaAlignment), vaAlignment, TWO_TO_64) == RoundUp(size, vaAlignment)
  {
    var k: nat :| vaAlignment == Pow2(k);
    Pow2Literals();
    if k >= 64 { Pow2Monotone(64, k); }
    AlignIsRoundUp(size, k, 64);
    RoundUpIsLeast(size, vaAlignment);
    AlignIdempotent(size, k, 64);
    Pow2Divides(k, 64);
    MultiplesApart(RoundUp(size, vaAlignment), TWO_TO_64, vaAlignment);
  }

  // Rounding is done once by the caller and again by find_va; the second time changes nothing.
  lemma RoundedTwice(vaAlignment: int, size: int, alignment: int, base: int, fromTop: bool)
    requires IsPowerOfTwo(vaAlignment) && vaAlignment < TWO_TO_32
    requires 0 < size && size + vaAlignment - 1 < TWO_TO_64
    ensures vaAlignment > 0
    ensures var req := Rounded(vaAlignment, size, alignment, base, fromTop);
            && 0 < req.size && req.size + vaAlignment - 1 < TWO_TO_64
            && Rounded(vaAlignment, req.size, req.alignment, base, fromTop) == req
  {
    RoundedSize(vaAlignment, size);
  }

  // Which sizes the rounding turns into 0: 0 itself, and those whose rounding wraps.
  lemma RoundsToZeroIff(vaAlignment: int, size: int)
    requires IsPowerOfTwo(vaAlignment) && vaAlignment < TWO_TO_32
    requires 0 <= size < TWO_TO_64
    ensures vaAlignment > 0
    ensures 0 <= Align(size, vaAlignment, TWO_TO_64) < TWO_TO_64
    ensures Align(size, vaAlignment, TWO_TO_64) == 0 <==> size == 0 || size + vaAlignment - 1 >= TWO_TO_64
  {
    if 0 < size && size + vaAlignment - 1 < TWO_TO_64 {
      RoundedSize(vaAlignment, size);
    } else {
      var k: nat :| vaAlignment == Pow2(k);
      Pow2Literals();
      if k >= 64 { Pow2Monotone(64, k); }
      AlignIsRoundUp(size, k, 64);
      DivModUnique(0, vaAlignment, 0, 0);
    }
  }

  // The books are in order: what the invariant of a manager says about its state.
  ghost predicate InOrder(s: VaState, start: int, max: int) {
    (Canonical(s.holes) || Barren(s.holes)) && Within(s.holes, max) && Balanced(s, start, max)
  }

  lemma InSpaceBelow(hs: seq<Hole>, max: int)
    requires (Canonical(hs) || Barren(hs)) && Within(hs, max) && max < TWO_TO_64
    ensures AllInSpace(hs)
  {
  }

  // What a search on the rounded request does to the list.
  ghost predicate Searched(pre: seq<Hole>, post: seq<Hole>, req: Request, callocOk: bool, ret: Errno, va: int)
    requires req.alignment > 0
  {
    if req.base % req.alignment != 0 then ret == EINVAL && post == pre
    else Landed(pre, post, req, callocOk, ret, va)
  }

  // The search is only asked to be right on the holes it gets to.
  ghost predicate HarmlessTo(hs: seq<Hole>, req: Request)
    requires req.alignment > 0
  {
    req.base % req.alignment == 0 ==> SearchHarmless(hs, req)
  }

  lemma SearchedStep(s: VaState, post: seq<Hole>, req: Request, callocOk: bool, ret: Errno, va: int,
                     start: int, max: int)
    requires InOrder(s, start, max) && AllInSpace(s.holes) && req.Valid() && HarmlessTo(s.holes, req)
    requires Searched(s.holes, post, req, callocOk, ret, va)
    ensures StepBy(s, Search(req, callocOk, ret, va), AfterSearch(s, post, req, ret, va))
    ensures InOrder(AfterSearch(s, post, req, ret, va), start, max)
  {
    if req.base % req.alignment == 0 {
      LandedOutcome(s.holes, post, req, callocOk, ret, va, max);
    }
    SearchStep(s, post, req, callocOk, ret, va, start, max);
  }

  // ---- What the two calls promise, in their own arguments. ----

  // No range of this size at a multiple of step, or at the required base, is free.
  ghost predicate NoRoom(free: iset<int>, size: int, step: int, base: int)
    requires step > 0
  {
    if base != 0 then !(Range(base, size) <= free)
    else forall c :: c % step == 0 ==> !(Range(c, size) <= free)
  }

  // A range is taken at the required base, or else at the lowest free multiple of step, or at
  // the highest; or it is refused for the one reason the error names, and nothing changes.
  ghost predicate Found(pre: VaState, post: VaState, size: int, step: int, base: int, fromTop: bool, callocOk: bool,
                        ret: Errno, va: int)
    requires step > 0
  {
    var free := Free(pre.holes);
    && (ret == EINVAL <==> base % step != 0)
    && (ret == ENOMEM <==> base % step == 0
                           && (NoRoom(free, size, step, base) || (!callocOk && va - 1 in free && va + size in free)))
    && ret in {Success, EINVAL, ENOMEM}
    && (ret != Success ==> post == pre)
    && (ret == Success ==>
          && Range(va, size) <= free && Free(post.holes) == free - Range(va, size)
          && post.live == pre.live + {Hole(va, size)} && post.lost == pre.lost
          && if base != 0 then va == base
             else
               && va % step == 0
               && forall c :: c % step == 0 && Range(c, size) <= free ==> if fromTop then c <= va else va <= c)
  }

  lemma StepIsFound(pre: VaState, post: VaState, vaAlignment: int, size: int, alignment: int, base: int, fromTop: bool,
                    callocOk: bool, ret: Errno, va: int)
    requires IsPowerOfTwo(vaAlignment) && vaAlignment < TWO_TO_32
    requires 0 < size && size + vaAlignment - 1 < TWO_TO_64 && 0 <= base < TWO_TO_64 && vaAlignment > 0
    requires StepBy(pre, Search(Rounded(vaAlignment, size, alignment, base, fromTop), callocOk, ret, va), post)
    ensures Found(pre, post, RoundUp(size, vaAlignment), Max(alignment, vaAlignment), base, fromTop, callocOk, ret, va)
  {
    RoundedSize(vaAlignment, size);
    var req := Rounded(vaAlignment, size, alignment, base, fromTop);
    assert forall c :: Candidate(Free(pre.holes), c, req) <==>
             Range(c, req.size) <= Free(pre.holes) && if base != 0 then c == base else c % req.alignment == 0;
  }

  // The range is free again, and no longer out; or it is lost, exactly for want of memory
  // when no neighbouring address is free.
  ghost predicate Freed(pre: VaState, post: VaState, range: Hole, callocOk: bool) {
    var bytes := Range(range.offset, range.size);
    && post.live == pre.live - {range}
    && if callocOk || range.offset - 1 in Free(pre.holes) || range.End() in Free(pre.holes) then
         Free(post.holes) == Free(pre.holes) + bytes && post.lost == pre.lost
       else
         post.holes == pre.holes && post.lost == pre.lost + bytes
  }

  // Where a range that starts at va belongs, and what giving it back there leaves.
  ghost predicate GivenBack(pre: seq<Hole>, p: nat, post: seq<Hole>, va: int, size: int, callocOk: bool) {
    && p <= |pre|
    && (p > 0 ==> va <= pre[p - 1].offset)
    && (p < |pre| ==> pre[p].offset < va)
    && post == if JoinsUpper(pre, p, va + size) || JoinsLower(pre, p, va) || callocOk
               then Restored(pre, p, va, size) else pre
  }

  lemma ReleasedStep(s: VaState, p: nat, post: seq<Hole>, range: Hole, callocOk: bool, start: int, max: int)
    requires InOrder(s, start, max) && 0 <= start && range in s.live
    requires GivenBack(s.holes, p, post, range.offset, range.size, callocOk)
    ensures StepBy(s, Release(range, callocOk), AfterRelease(s, post, range, callocOk))
    ensures InOrder(AfterRelease(s, post, range, callocOk), start, max)
  {
    LiveIsReleasable(s, range, start, max);
    GivenBackOutcome(s.holes, p, post, range.offset, range.size, callocOk, max);
    ReleaseStep(s, post, range, callocOk, start, max);
  }

  lemma InitialInOrder(start: int, max: int)
    requires 0 <= start <= max
    ensures InOrder(Initial(start, max), start, max)
  {
    InitialBalanced(start, max);
  }

  // The books stay in order through a search for size 0 exactly unless it succeeds strictly
  // between two free addresses or on the empty hole of an empty range; then it was no change.
  lemma ZeroSizeSearched(s: VaState, post: seq<Hole>, req: Request, callocOk: bool, ret: Errno, va: int,
                         start: int, max: int)
    requires InOrder(s, start, max) && AllInSpace(s.holes) && req.InWords() && req.size == 0 && HarmlessTo(s.holes, req)
    requires Searched(s.holes, post, req, callocOk, ret, va)
    ensures Free(post) == Free(s.holes)
    ensures InOrder(s.(holes := post), start, max)
            <==> !(ret == Success && (Interior(Free(s.holes), va, 0) || Barren(s.holes)))
    ensures InOrder(s.(holes := post), start, max) ==> post == s.holes
  {
    if req.base % req.alignment == 0 {
      if start < max {
        ZeroSizeSearchIff(s.holes, post, req, callocOk, ret, va);
      } else {
        ZeroSizeInBarren(s.holes, post, req, callocOk, ret, va);
      }
    }
  }

  lemma EmptyHoleBreaksOrder(s: VaState, p: nat, va: int, start: int, max: int)
    requires InOrder(s, start, max) && p <= |s.holes|
    ensures !InOrder(s.(holes := s.holes[..p] + [Hole(va, 0)] + s.holes[p..]), start, max)
  {
    var post := s.holes[..p] + [Hole(va, 0)] + s.holes[p..];
    assert post[p].size == 0;
    assert !Canonical(post);
  }

  lemma ZeroSizeReleased(s: VaState, p: nat, post: seq<Hole>, va: int, callocOk: bool, start: int, max: int)
    requires InOrder(s, start, max) && GivenBack(s.holes, p, post, va, 0, callocOk)
    ensures Free(post) == Free(s.holes)
    ensures InOrder(s.(holes := post), start, max) <==> Touches(s.holes, va) || !callocOk
    ensures InOrder(s.(holes := post), start, max) ==> post == s.holes
  {
    ZeroSizeFreeIff(s.holes, p, post, va, callocOk);
    if Touches(s.holes, va) || !callocOk {
      assert s.(holes := post) == s;
    } else {
      EmptyHoleBreaksOrder(s, p, va, start, max);
    }
  }

  // The ring starts at head and its other nodes hold exactly these holes, in order.
  ghost predicate Chain(head: HoleNode, ring: seq<HoleNode>, holes: seq<Hole>)
    reads ring
  {
    && Ring(ring) && ring[0] == head
    && |holes| == |ring| - 1
    && (forall i :: 0 <= i < |holes| ==> ring[i + 1].entry == holes[i])
  }

  class VaManager {
    const vaMax: int
    const vaAlignment: int
    const head: HoleNode
    ghost var ring: seq<HoleNode>  // the head, then the hole nodes in next-order
    ghost var holes: seq<Hole>     // what the hole nodes hold
    ghost const vaStart: int       // the lower end of the range, kept for the books only
    ghost var live: set<Hole>      // ranges handed out and not given back
    ghost var lost: iset<int>      // addresses dropped by a free whose calloc failed

    ghost function Nodes(): set<HoleNode>
      reads this
    {
      set n | n in ring
    }

    ghost predicate Shape()
      reads this, ring
    {
      Chain(head, ring, holes)
    }

    ghost function State(): VaState
      reads this
    {
      VaState(holes, live, lost)
    }

    // The invariant of every run: a well-formed list, and every address accounted for.
    ghost predicate Valid()
      reads this, ring
    {
      Shape() && Configured() && InOrder(State(), vaStart, vaMax)
    }

    // What the constructor was given, for good.
    ghost predicate Configured() {
      && 0 <= vaStart && vaMax < TWO_TO_64
      && IsPowerOfTwo(vaAlignment) && vaAlignment < TWO_TO_32
    }

    // The nodes added since the ring was as given were allocated since.
    twostate predicate RingGrowsFresh()
      reads this
    {
      forall n :: n in ring ==> n in old(ring) || fresh(n)
    }

    // amdgpu_vamgr_init
    constructor (start: int, max: int, alignment: int)
      requires 0 <= start <= max < TWO_TO_64
      requires IsPowerOfTwo(alignment) && alignment < TWO_TO_32
      ensures Valid() && fresh(ring)
      ensures State() == Initial(start, max)
      ensures vaStart == start && vaMax == max && vaAlignment == alignment
    {
      vaStart := start;
      vaMax := max;
      live, lost := {}, iset{};
      vaAlignment := alignment;
      head := new Node(Hole(0, 0));
      new;
      var n := new Node(Hole(start, vaMax - start));
      assert Ring([head]);
      ListAdd(n, head, [head], 0);
      assert [head][..1] + [n] + [head][1..] == [head, n];
      ring := [head, n];
      holes := [Hole(start, max - start)];
      assert Chain(head, [head, n], holes);
      InitialInOrder(start, max);
      assert State() == Initial(start, max);
    }

    // calloc, fill in, and list_add behind the node at position p of the ring.
    method InsertAfter(list: HoleNode, offset: int, size: int, ghost p: nat)
      requires Shape() && p <= |holes| && ring[p] == list
      modifies this`ring, this`holes, ring
      ensures Shape() && RingGrowsFresh()
      ensures holes == old(holes)[..p] + [Hole(offset, size)] + old(holes)[p..]
      ensures forall k :: 0 <= k <= p ==> ring[k] == old(ring)[k]
    {
      Links(ring, p);
      var n := new Node(Hole(offset, size));
      ListAdd(n, list, ring, p);
      ring := ring[..p + 1] + [n] + ring[p + 1..];
      holes := holes[..p] + [Hole(offset, size)] + holes[p..];
      forall k | 0 <= k < |holes| ensures ring[k + 1].entry == holes[k] {
        if k > p {
          assert ring[k + 1] == old(ring)[k] && holes[k] == old(holes)[k - 1];
        } else if k < p {
          assert ring[k + 1] == old(ring)[k + 1] && holes[k] == old(holes)[k];
        } else {
          assert ring[k + 1] == n && holes[k] == Hole(offset, size);
        }
      }
    }

    // list_del and free of the node that holds holes[i].
    method Unlink(node: HoleNode, ghost i: nat)
      requires Shape() && i < |holes| && ring[i + 1] == node
      modifies this`ring, this`holes, ring
      ensures Shape() && RingGrowsFresh()
      ensures holes == old(holes)[..i] + old(holes)[i + 1..]
    {
      Links(ring, i + 1);
      ListDel(node, ring, i + 1);
      ring := ring[..i + 1] + ring[i + 2..];
      holes := holes[..i] + holes[i + 1..];
      forall k | 0 <= k < |holes| ensures ring[k + 1].entry == holes[k] {
        if k >= i {
          assert ring[k + 1] == old(ring)[k + 2] && holes[k] == old(holes)[k + 1];
        } else {
          assert ring[k + 1] == old(ring)[k + 1] && holes[k] == old(holes)[k];
        }
      }
    }

    // Assign both fields of the node that holds holes[i].
    method Resize(node: HoleNode, offset: int, size: int, ghost i: nat)
      requires Shape() && i < |holes| && ring[i + 1] == node
      modifies this`holes, node`entry
      ensures Shape() && ring == old(ring)
      ensures holes == old(holes)[i := Hole(offset, size)]
      ensures node.entry == Hole(offset, size)
    {
      node.entry := Hole(offset, size);
      holes := holes[i := Hole(offset, size)];
    }

    // amdgpu_vamgr_subtract_hole
    method SubtractHole(hole: HoleNode, startVa: int, endVa: int, callocOk: bool, ghost i: nat) returns (ret: Errno)
      requires Shape() && i < |holes| && ring[i + 1] == hole
      requires holes[i].offset <= startVa <= endVa <= holes[i].End()
      modifies this`ring, this`holes, ring
      ensures Shape() && RingGrowsFresh()
      ensures TakenFrom(old(holes), i, holes, endVa - startVa, callocOk, ret, startVa)
    {
      ghost var hs := holes;
      CutByCase(hs, i, startVa, endVa);
      if startVa > hole.entry.offset && endVa - hole.entry.offset < hole.entry.size {
        if !callocOk {
          return ENOMEM;
        }
        SplitHole(hole, startVa, endVa, i);
      } else if startVa > hole.entry.offset {
        Resize(hole, hole.entry.offset, startVa - hole.entry.offset, i);
      } else if endVa - hole.entry.offset < hole.entry.size {
        Resize(hole, endVa, hole.entry.size - (endVa - hole.entry.offset), i);
      } else {
        Unlink(hole, i);
      }
      ret := Success;
    }

    // The case of subtract_hole that needs a new node, for the part below the range.
    method SplitHole(hole: HoleNode, startVa: int, endVa: int, ghost i: nat)
      requires Shape() && i < |holes| && ring[i + 1] == hole
      modifies this`ring, this`holes, ring
      ensures Shape() && RingGrowsFresh()
      ensures var h := old(holes)[i];
              holes == Splice(old(holes), i, i + 1, [Hole(endVa, h.End() - endVa), Hole(h.offset, startVa - h.offset)])
    {
      ghost var hs, h := holes, holes[i];
      InsertAfter(hole, hole.entry.offset, startVa - hole.entry.offset, i + 1);
      assert ring[i + 1] == hole && holes[i] == h;
      Resize(hole, endVa, hole.entry.size - (endVa - hole.entry.offset), i);
      SplitIsSplice(hs, i, Hole(endVa, h.End() - endVa), Hole(h.offset, startVa - h.offset));
    }

    // amdgpu_vamgr_find_va. A size that rounds to 0 takes no address, and is followed to where
    // it leaves the list out of order; for every other size the call is a step of the run model.
    method FindVa(size: int, alignment: int, base: int, fromTop: bool, callocOk: bool) returns (ret: Errno, va: int)
      requires Valid() && 0 <= size < TWO_TO_64 && 0 <= base < TWO_TO_64
      requires HarmlessTo(holes, Rounded(vaAlignment, size, alignment, base, fromTop))
      modifies this, Nodes()
      ensures Shape() && RingGrowsFresh()
      ensures var req := Rounded(vaAlignment, size, alignment, base, fromTop);
              if req.size > 0 then Valid() && StepBy(old(State()), Search(req, callocOk, ret, va), State())
              else SearchedForNothing(req, callocOk, ret, va)
      ensures 0 < size && size + vaAlignment - 1 < TWO_TO_64 ==>
                Found(old(State()), State(), RoundUp(size, vaAlignment), Max(alignment, vaAlignment), base, fromTop,
                      callocOk, ret, va)
      ensures size == 0 || size + vaAlignment - 1 >= TWO_TO_64 ==>
                FoundNothing(Max(alignment, vaAlignment), base, callocOk, ret, va)
    {
      RoundsToZeroIff(vaAlignment, size);
      var req := Rounded(vaAlignment, size, alignment, base, fromTop);
      if req.size > 0 {
        ret, va := SearchLocked(req, callocOk);
        StepIsFound(old(State()), State(), vaAlignment, size, alignment, base, fromTop, callocOk, ret, va);
      } else {
        ghost var before := State();
        InSpaceBelow(holes, vaMax);
        ret, va := SearchHoles(req, callocOk);
        if base % req.alignment == 0 { ZeroSizeLanded(before.holes, holes, req, callocOk, ret, va); }
        ZeroSizeSearched(before, holes, req, callocOk, ret, va, vaStart, vaMax);
      }
    }

    // A bound a caller can check: no sum of the search can wrap.
    lemma NoWrapSearch(size: int, alignment: int, base: int, fromTop: bool)
      requires Valid() && 0 < size && size + vaAlignment - 1 < TWO_TO_64 && 0 <= base < TWO_TO_64
      requires if base != 0 then base + size + vaAlignment <= TWO_TO_64
               else vaMax + Max(alignment, vaAlignment) <= TWO_TO_64
      ensures vaAlignment > 0 && HarmlessTo(holes, Rounded(vaAlignment, size, alignment, base, fromTop))
    {
      RoundedSize(vaAlignment, size);
      RoundUpIsLeast(size, vaAlignment);
      InSpaceBelow(holes, vaMax);
      var req := Rounded(vaAlignment, size, alignment, base, fromTop);
      forall i | 0 <= i < |holes| ensures WrapHarmless(holes[i], req) {
        NoWrapIsHarmless(holes[i], req, vaMax);
      }
    }

    // A search for size 0: nothing is taken, and the manager stays valid exactly unless it
    // succeeds strictly between two free addresses or on the hole of an empty range.
    twostate predicate SearchedForNothing(req: Request, callocOk: bool, ret: Errno, va: int)
      requires req.alignment > 0
      reads this, ring
    {
      && Searched(old(holes), holes, req, callocOk, ret, va)
      && Free(holes) == Free(old(holes)) && live == old(live) && lost == old(lost)
      && (Valid() <==> !(ret == Success && (Interior(Free(old(holes)), va, 0) || Barren(old(holes)))))
      && (Valid() ==> State() == old(State()))
    }

    // The same in the caller's arguments: where nothing was taken, and when that failed.
    twostate predicate FoundNothing(step: int, base: int, callocOk: bool, ret: Errno, va: int)
      requires step > 0
      reads this
    {
      && (ret == EINVAL <==> base % step != 0)
      && (ret == Success ==>
            && (exists i :: 0 <= i < |old(holes)| && old(holes)[i].offset <= va <= old(holes)[i].End())
            && if base != 0 then va == base else va % step == 0)
      && (ret == ENOMEM && callocOk ==>
            forall i, a :: 0 <= i < |old(holes)| && old(holes)[i].Has(a) ==>
              if base != 0 then a != base else a % step != 0)
    }

    // find_va on the rounded request, with the books kept beside it.
    method SearchLocked(req: Request, callocOk: bool) returns (ret: Errno, va: int)
      requires Valid() && req.Valid() && HarmlessTo(holes, req)
      modifies this, Nodes()
      ensures Valid() && RingGrowsFresh()
      ensures StepBy(old(State()), Search(req, callocOk, ret, va), State())
    {
      ghost var before := State();
      InSpaceBelow(holes, vaMax);
      ret, va := SearchHoles(req, callocOk);
      ghost var after := AfterSearch(before, holes, req, ret, va);
      SearchedStep(before, holes, req, callocOk, ret, va, vaStart, vaMax);
      live := after.live;
      assert State() == after;
    }

    method SearchHoles(req: Request, callocOk: bool) returns (ret: Errno, va: int)
      requires Shape() && AllInSpace(holes) && req.InWords() && HarmlessTo(holes, req)
      modifies this`ring, this`holes, ring
      ensures Shape() && RingGrowsFresh()
      ensures Searched(old(holes), holes, req, callocOk, ret, va)
    {
      if req.base % req.alignment != 0 {
        return EINVAL, 0;
      }
      if !req.fromTop {
        ret, va := SearchFromBottom(req, callocOk);
      } else {
        ret, va := SearchFromTop(req, callocOk);
      }
    }

    // The first hit of either loop.
    method TakeHit(hole: HoleNode, va: int, req: Request, callocOk: bool, ghost i: nat) returns (ret: Errno)
      requires Shape() && AllInSpace(holes) && req.InWords() && SearchHarmless(holes, req)
      requires FirstHit(holes, i, req) && ring[i + 1] == hole && va == Place(holes[i], req).value
      modifies this`ring, this`holes, ring
      ensures Shape() && RingGrowsFresh()
      ensures Landed(old(holes), holes, req, callocOk, ret, va)
    {
      ghost var pre := holes;
      HitInside(pre[i], req);
      ret := SubtractHole(hole, va, va + req.size, callocOk, i);
      LandedAt(pre, i, holes, req, callocOk, ret, va);
    }

    // The SAFE_REV loop of find_va: lowest hole first.
    method SearchFromBottom(req: Request, callocOk: bool) returns (ret: Errno, va: int)
      requires Shape() && AllInSpace(holes) && req.InWords()
      requires !req.fromTop && SearchHarmless(holes, req)
      modifies this`ring, this`holes, ring
      ensures Shape() && RingGrowsFresh()
      ensures Landed(old(holes), holes, req, callocOk, ret, va)
    {
      var hole := head.prev;
      var n := hole.prev;
      ghost var i := |holes|;
      while hole != head
        invariant 0 <= i <= |holes| && hole == ring[i] && n == hole.prev
        invariant forall j :: i <= j < |holes| ==> Place(holes[j], req) == None
        decreases i
      {
        match Place(hole.entry, req) {
          case None =>
            hole, n := n, n.prev;
            i := i - 1;
          case Some(offset) =>
            ret := TakeHit(hole, offset, req, callocOk, i - 1);
            return ret, offset;
        }
      }
      return ENOMEM, 0;
    }

    // The SAFE loop of find_va: highest hole first.
    method SearchFromTop(req: Request, callocOk: bool) returns (ret: Errno, va: int)
      requires Shape() && AllInSpace(holes) && req.InWords()
      requires req.fromTop && SearchHarmless(holes, req)
      modifies this`ring, this`holes, ring
      ensures Shape() && RingGrowsFresh()
      ensures Landed(old(holes), holes, req, callocOk, ret, va)
    {
      var hole := head.next;
      var n := hole.next;
      ghost var i := 0;
      while hole != head
        invariant 0 <= i <= |holes| && n == hole.next
        invariant hole == if i < |holes| then ring[i + 1] else head
        invariant forall j :: 0 <= j < i ==> Place(holes[j], req) == None
        decreases |holes| - i
      {
        match Place(hole.entry, req) {
          case None =>
            hole, n := n, n.next;
            i := i + 1;
          case Some(offset) =>
            ret := TakeHit(hole, offset, req, callocOk, i);
            return ret, offset;
        }
      }
      return ENOMEM, 0;
    }

    // amdgpu_vamgr_free_va. Giving back a size that rounds to 0 frees no address, and is
    // followed to where it leaves the list out of order.
    method FreeVa(va: int, size: int, callocOk: bool)
      requires Valid() && 0 <= size < TWO_TO_64
      requires var range := Hole(va, Align(size, vaAlignment, TWO_TO_64));
               va != INVALID_VA_ADDRESS && range.size > 0 ==> range in live
      modifies this, Nodes()
      ensures Shape() && RingGrowsFresh()
      ensures var range := Hole(va, Align(size, vaAlignment, TWO_TO_64));
              if va == INVALID_VA_ADDRESS then Valid() && State() == old(State())
              else if range.size > 0 then Valid() && StepBy(old(State()), Release(range, callocOk), State())
              else ReleasedNothing(va, callocOk)
      ensures va != INVALID_VA_ADDRESS && 0 < size && size + vaAlignment - 1 < TWO_TO_64 ==>
                Freed(old(State()), State(), Hole(va, RoundUp(size, vaAlignment)), callocOk)
    {
      RoundsToZeroIff(vaAlignment, size);
      if 0 < size && size + vaAlignment - 1 < TWO_TO_64 { RoundedSize(vaAlignment, size); }
      if va == INVALID_VA_ADDRESS {
        return;
      }
      var range := Hole(va, Align(size, vaAlignment, TWO_TO_64));
      if range.size > 0 {
        ReleaseLocked(range, callocOk);
      } else {
        ReleaseNothing(va, callocOk);
      }
    }

    method ReleaseNothing(va: int, callocOk: bool)
      requires Valid()
      modifies this, Nodes()
      ensures Shape() && RingGrowsFresh() && ReleasedNothing(va, callocOk)
    {
      ghost var before := State();
      ghost var p := ReleaseHoles(Hole(va, 0), callocOk);
      ZeroSizeReleased(before, p, holes, va, callocOk, vaStart, vaMax);
    }

    // Nothing given back: the manager stays valid, and unchanged, exactly when the address is
    // at the edge of a hole or calloc fails; otherwise an empty hole is left on the list.
    twostate predicate ReleasedNothing(va: int, callocOk: bool)
      reads this, ring
    {
      && Free(holes) == Free(old(holes)) && live == old(live) && lost == old(lost)
      && (Valid() <==> Touches(old(holes), va) || !callocOk)
      && (Valid() ==> State() == old(State()))
    }

    // free_va on the rounded range, with the books kept beside it.
    method ReleaseLocked(range: Hole, callocOk: bool)
      requires Valid() && range in live
      modifies this, Nodes()
      ensures Valid() && RingGrowsFresh()
      ensures StepBy(old(State()), Release(range, callocOk), State())
    {
      ghost var before := State();
      ghost var p := ReleaseHoles(range, callocOk);
      ReleasedStep(before, p, holes, range, callocOk, vaStart, vaMax);
      ghost var after := AfterRelease(before, holes, range, callocOk);
      live, lost := after.live, after.lost;
      assert State() == after;
    }

    // The range goes back below the p holes that start at or above it.
    method ReleaseHoles(range: Hole, callocOk: bool) returns (ghost p: nat)
      requires Shape()
      modifies this`ring, this`holes, ring
      ensures Shape() && RingGrowsFresh()
      ensures GivenBack(old(holes), p, holes, range.offset, range.size, callocOk)
    {
      var hole, next;
      hole, next, p := FindNeighbours(range.offset);
      GiveBack(hole, next, range.offset, range.size, callocOk, p);
    }

    // The loop of free_va: the last hole at or above va (or the head), and its successor.
    method FindNeighbours(va: int) returns (hole: HoleNode, next: HoleNode, ghost p: nat)
      requires Shape()
      ensures p <= |holes| && hole == ring[p]
      ensures next == if p < |holes| then ring[p + 1] else head
      ensures p > 0 ==> va <= holes[p - 1].offset
      ensures p < |holes| ==> holes[p].offset < va
    {
      hole := head;
      next := head.next;
      p := 0;
      while next != head
        invariant 0 <= p <= |holes| && hole == ring[p]
        invariant next == if p < |holes| then ring[p + 1] else head
        invariant p > 0 ==> va <= holes[p - 1].offset
        decreases |holes| - p
      {
        if next.entry.offset < va {
          break;
        }
        hole := next;
        next := next.next;
        p := p + 1;
      }
    }

    // The rest of free_va, once the hole above the range and the one below it are known.
    method GiveBack(hole: HoleNode, next: HoleNode, va: int, size: int, callocOk: bool, ghost p: nat)
      requires Shape() && p <= |holes|
      requires hole == ring[p] && next == if p < |holes| then ring[p + 1] else head
      modifies this`ring, this`holes, ring
      ensures Shape() && RingGrowsFresh()
      ensures holes ==
              if JoinsUpper(old(holes), p, va + size) || JoinsLower(old(holes), p, va) || callocOk
              then Restored(old(holes), p, va, size)
              else old(holes)
    {
      ghost var hs := holes;
      assert JoinsUpper(hs, p, va + size) <==> hole != head && hole.entry.offset == va + size;
      assert JoinsLower(hs, p, va) <==> next != hole && next != head && next.entry.End() == va;
      if hole != head && hole.entry.offset == va + size {
        GrowUpper(hole, next, va, size, p);
        return;
      }
      RestoredByCase(hs, p, va, size);
      if next != hole && next != head && next.entry.End() == va {
        Resize(next, next.entry.offset, next.entry.size + size, p);
        return;
      }
      if callocOk {
        InsertAfter(hole, va, size, p);
      }
    }

    // The upper hole touches the range; it may end up touching the lower one too.
    method GrowUpper(hole: HoleNode, next: HoleNode, va: int, size: int, ghost p: nat)
      requires Shape() && 0 < p <= |holes| && JoinsUpper(holes, p, va + size)
      requires hole == ring[p] && next == if p < |holes| then ring[p + 1] else head
      modifies this`ring, this`holes, ring
      ensures Shape() && RingGrowsFresh()
      ensures holes == Restored(old(holes), p, va, size)
    {
      RestoredUpperByCase(holes, p, va, size);
      Resize(hole, va, hole.entry.size + size, p - 1);
      if next != hole && next != head && next.entry.End() == va {
        Resize(next, next.entry.offset, next.entry.size + hole.entry.size, p);
        Unlink(hole, p - 1);
      }
    }

    // amdgpu_vamgr_deinit: every hole node is unlinked and released, once.
    method Deinit() returns (released: seq<HoleNode>)
      requires Shape()
      modifies this`ring, this`holes, ring
      ensures released == old(ring)[1..]
      ensures ring == [head] && Ring(ring) && holes == []
    {
      released := DrainForward(head, ring);
      ring := [head];
      holes := [];
    }
  }
}
