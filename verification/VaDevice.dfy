// The four managers of a device: how their ranges are computed (amdgpu/amdgpu_device.c)
// and how allocations are routed to them and back (amdgpu/amdgpu_vamgr.c).
module VaDevices {
  import opened UtilMath
  import opened Holes
  import opened Placement
  import opened Wrappers
  import opened VaRuns
  import opened VaManagers

  datatype MgrId = Low | Low32 | High | High32

  // What the kernel reports in dev_info; a device without a high range reports 0 for both ends.
  datatype VaInfo = VaInfo(low: int, lowMax: int, high: int, highMax: int, alignment: int) {
    ghost predicate Valid() {
      && 0 <= low <= Min(lowMax, TWO_TO_32) && lowMax < TWO_TO_64
      && 0 <= high <= highMax < TWO_TO_64
      && WindowEnd(high) < TWO_TO_64 && WindowEnd(SpanOf(High32).max) < TWO_TO_64
      && IsPowerOfTwo(alignment) && alignment < TWO_TO_32
    }

    // The range each manager is initialised with.
    function SpanOf(id: MgrId): Span {
      match id
      case Low32 => Span(low, Min(lowMax, TWO_TO_32))
      case Low => Span(Min(lowMax, TWO_TO_32), Max(lowMax, TWO_TO_32))
      case High32 => Span(high, Min(highMax, WindowEnd(high)))
      case High =>
        var start := Min(highMax, WindowEnd(high));
        Span(start, Max(highMax, WindowEnd(start)))
    }

    // Without a high range the HIGH flag is cleared, so the two high managers never serve.
    predicate Usable(id: MgrId) {
      highMax != 0 || id == Low || id == Low32
    }

    // The low ranges and the high ones have no address in common, or the high ones are not used.
    predicate RangesApart() {
      || highMax == 0
      || Max(lowMax, TWO_TO_32) <= high
      || SpanOf(High).max <= low
      || low == Max(lowMax, TWO_TO_32)
    }
  }

  datatype Span = Span(start: int, max: int) {
    ghost function Bytes(): iset<int> { Range(start, max - start) }
  }

  // (x & ~0xffffffff) + 0x100000000: the end of x's 4 GiB window.
  function WindowEnd(x: int): int { x - x % TWO_TO_32 + TWO_TO_32 }

  // ---- The ranges themselves. ----

  lemma SpansOrdered(info: VaInfo)
    requires info.Valid()
    ensures forall id: MgrId :: 0 <= info.SpanOf(id).start <= info.SpanOf(id).max < TWO_TO_64
  {
  }

  lemma SpansContiguous(info: VaInfo)
    requires info.Valid()
    ensures info.SpanOf(Low32).max == info.SpanOf(Low).start && info.SpanOf(High32).max == info.SpanOf(High).start
    ensures info.SpanOf(Low32).Bytes() !! info.SpanOf(Low).Bytes()
    ensures info.SpanOf(High32).Bytes() !! info.SpanOf(High).Bytes()
    ensures info.SpanOf(Low32).Bytes() + info.SpanOf(Low).Bytes()
            == Range(info.low, Max(info.lowMax, TWO_TO_32) - info.low)
    ensures info.SpanOf(High32).Bytes() + info.SpanOf(High).Bytes()
            == Range(info.high, info.SpanOf(High).max - info.high)
    ensures info.SpanOf(High).max == Max(info.highMax, WindowEnd(Min(info.highMax, WindowEnd(info.high))))
  {
  }

  // Which addresses each manager gets: the 32-bit ones those of the device that share their
  // upper half with its first address, the wide ones what lies between that and the device's
  // end, or the rest of the window the range starts in when that reaches further.
  lemma SpansByAddress(info: VaInfo, a: int)
    requires 0 <= info.low
    ensures a in info.SpanOf(Low32).Bytes() <==> info.low <= a < info.lowMax && a / TWO_TO_32 == 0
    ensures a in info.SpanOf(Low).Bytes() <==> TWO_TO_32 <= a < info.lowMax || info.lowMax <= a < TWO_TO_32
    ensures a in info.SpanOf(High32).Bytes()
            <==> info.high <= a < info.highMax && a / TWO_TO_32 == info.high / TWO_TO_32
    ensures var start := info.SpanOf(High32).max;
            a in info.SpanOf(High).Bytes() <==> start <= a && (a < info.highMax || a / TWO_TO_32 == start / TWO_TO_32)
  {
  }

  // The managers that can serve have disjoint ranges exactly when low and high are apart.
  lemma RangesApartIff(info: VaInfo)
    requires info.Valid()
    ensures info.RangesApart() <==>
            forall a: MgrId, b: MgrId :: a != b && info.Usable(a) && info.Usable(b) ==>
              info.SpanOf(a).Bytes() !! info.SpanOf(b).Bytes()
  {
    if !info.RangesApart() {
      var x := Max(info.low, info.high);
      var a := if x < info.SpanOf(Low32).max then Low32 else Low;
      var b := if x < info.SpanOf(High32).max then High32 else High;
      assert x in info.SpanOf(a).Bytes() && x in info.SpanOf(b).Bytes();
    }
  }

  // The wide low manager stays below what the device supports only when the device
  // supports at least 4 GiB; otherwise it serves addresses past lowMax.
  lemma LowStaysInsideDevice(info: VaInfo)
    requires info.Valid()
    ensures info.SpanOf(Low).Bytes() <= Range(info.low, info.lowMax - info.low) <==> info.lowMax >= TWO_TO_32
  {
    if info.lowMax < TWO_TO_32 {
      assert info.lowMax in info.SpanOf(Low).Bytes();
      assert info.lowMax !in Range(info.low, info.lowMax - info.low);
    }
  }

  // The wide high manager stays below highMax exactly when the window after the 32-bit
  // one fits as a whole.
  lemma HighStaysInsideDevice(info: VaInfo)
    requires info.Valid()
    ensures info.SpanOf(High).Bytes() <= Range(info.high, info.highMax - info.high)
            <==> WindowEnd(info.SpanOf(High32).max) <= info.highMax
  {
    var s := info.SpanOf(High);
    assert s.max - 1 in s.Bytes();
    assert s.max - 1 !in Range(info.high, info.highMax - info.high) || s.max <= info.highMax;
  }

  // A device with 2 GiB below and 5 GiB above: both wide managers reach past its ends.
  lemma SmallDeviceIsLeft()
    ensures var info := VaInfo(0x20_0000, 0x8000_0000, 0x8000_0000_0000, 0x8001_4000_0000, 0x1000);
            && info.Valid()
            && info.SpanOf(Low) == Span(0x8000_0000, 0x1_0000_0000)
            && info.SpanOf(High) == Span(0x8001_0000_0000, 0x8002_0000_0000)
  {
    assert Pow2(12) == 0x1000;
  }

  // amdgpu_query_sw_info(amdgpu_sw_info_address32_hi)
  function Address32Hi(info: VaInfo): int {
    if info.SpanOf(High32).max != 0 then (info.SpanOf(High32).max - 1) / TWO_TO_32
    else (info.SpanOf(Low32).max - 1) / TWO_TO_32
  }

  lemma HighWindowSharesUpperHalf(info: VaInfo, a: int)
    requires info.Valid() && a in info.SpanOf(High32).Bytes()
    ensures a / TWO_TO_32 == Address32Hi(info)
  {
  }

  // ---- Routing. ----

  datatype VaHandle = VaHandle(address: int, size: int, mgr: MgrId) {
    function Extent(): Hole { Hole(address, size) }
  }

  datatype Flags = Flags(is32Bit: bool, high: bool, replayable: bool)

  function Pick(high: bool, is32Bit: bool): MgrId {
    if high then (if is32Bit then High32 else High) else if is32Bit then Low32 else Low
  }

  // A search that leaves the holes alone and reports an error.
  ghost predicate SearchFails(holes: seq<Hole>, req: Request, callocOk: bool)
    requires req.alignment > 0
  {
    exists ret, va :: ret != Success && FindOutcome(holes, holes, req, callocOk, ret, va)
  }

  // Every failure of an allocation is one of two: the required base is not aligned, or there
  // is no room or no memory.
  function FailureOf(req: Request): Errno
    requires req.alignment > 0
  {
    if req.base % req.alignment != 0 then EINVAL else ENOMEM
  }

  // The accounts of all four managers.
  datatype Books = Books(low: VaState, low32: VaState, high: VaState, high32: VaState) {
    ghost function Of(id: MgrId): VaState {
      match id
      case Low => low
      case Low32 => low32
      case High => high
      case High32 => high32
    }

    ghost predicate SameBut(that: Books, id: MgrId) {
      && (id != Low ==> low == that.low)
      && (id != Low32 ==> low32 == that.low32)
      && (id != High ==> high == that.high)
      && (id != High32 ==> high32 == that.high32)
    }
  }

  // A search served by the manager id, the first choice or the fallback; the other
  // managers' books as they were.
  ghost predicate ServedBy(pre: Books, post: Books, id: MgrId, first: MgrId, fallback: MgrId, req: Request, va: int,
                           find1Ok: bool, find2Ok: bool)
    requires req.alignment > 0
  {
    && post.SameBut(pre, id)
    && if id == first then
         StepBy(pre.Of(id), Search(req, find1Ok, Success, va), post.Of(id))
       else
         && id == fallback
         && SearchFails(pre.Of(first).holes, req, find1Ok)
         && StepBy(pre.Of(id), Search(req, find2Ok, Success, va), post.Of(id))
  }

  lemma FailedSearch(s: VaState, t: VaState, req: Request, callocOk: bool, ret: Errno, va: int)
    requires StepBy(s, Search(req, callocOk, ret, va), t) && ret != Success
    ensures t == s && SearchFails(s.holes, req, callocOk) && ret == FailureOf(req)
  {
  }

  // Taking a range and giving it straight back leaves every account as it was,
  // unless the giving back had to drop it.
  lemma UndoneSearch(s: VaState, mid: VaState, t: VaState, req: Request, va: int, findOk: bool, freeOk: bool,
                     span: Span)
    requires req.Valid() && Balanced(s, span.start, span.max)
    requires StepBy(s, Search(req, findOk, Success, va), mid)
    requires StepBy(mid, Release(Hole(va, req.size), freeOk), t)
    ensures t.live == s.live && (freeOk ==> t == s)
  {
    if Barren(s.holes) { BarrenRefuses(s.holes, req); }
    AllocThenFree(s.holes, mid.holes, t.holes, req, findOk, freeOk, va);
    assert Candidate(Free(s.holes), va, req);
    assert va in Range(va, req.size);
    if Hole(va, req.size) in s.live {
      HandedContains(s.live, Hole(va, req.size));
    }
  }

  lemma Undone(pre: Books, mid: Books, post: Books, id: MgrId, first: MgrId, fallback: MgrId,
               req: Request, va: int, find1Ok: bool, find2Ok: bool, freeOk: bool, span: Span)
    requires req.Valid() && Balanced(pre.Of(id), span.start, span.max)
    requires ServedBy(pre, mid, id, first, fallback, req, va, find1Ok, find2Ok)
    requires post.SameBut(mid, id) && StepBy(mid.Of(id), Release(Hole(va, req.size), freeOk), post.Of(id))
    ensures forall m: MgrId :: post.Of(m).live == pre.Of(m).live
    ensures freeOk ==> post == pre
  {
    UndoneSearch(pre.Of(id), mid.Of(id), post.Of(id), req, va, if id == first then find1Ok else find2Ok, freeOk, span);
  }

  // A range that was served is out as far as its manager knows, and it was not before.
  lemma ServedIsOut(s: VaState, t: VaState, req: Request, va: int, callocOk: bool, span: Span)
    requires req.Valid() && Balanced(s, span.start, span.max)
    requires StepBy(s, Search(req, callocOk, Success, va), t)
    ensures t.live != s.live
  {
    if Barren(s.holes) { BarrenRefuses(s.holes, req); }
    assert Candidate(Free(s.holes), va, req);
    assert va in Range(va, req.size);
    if Hole(va, req.size) in s.live {
      HandedContains(s.live, Hole(va, req.size));
    }
  }

  lemma FreedAtOnce(pre: Books, mid: Books, post: Books, first: MgrId, fallback: MgrId, req: Request,
                    find1Ok: bool, find2Ok: bool, h: VaHandle, span: Span)
    requires req.Valid() && Balanced(pre.Of(h.mgr), span.start, span.max) && h.size == req.size
    requires ServedBy(pre, mid, h.mgr, first, fallback, req, h.address, find1Ok, find2Ok)
    requires if h.address == 0 then post == mid
             else post.SameBut(mid, h.mgr) && StepBy(mid.Of(h.mgr), Release(h.Extent(), true), post.Of(h.mgr))
    ensures post == pre <==> h.address != 0
  {
    if h.address == 0 {
      ServedIsOut(pre.Of(h.mgr), mid.Of(h.mgr), req, h.address, if h.mgr == first then find1Ok else find2Ok, span);
    } else {
      Undone(pre, mid, post, h.mgr, first, fallback, req, h.address, find1Ok, find2Ok, true, span);
    }
  }

  ghost predicate Unserved(pre: Books, first: MgrId, fallback: MgrId, req: Request, find1Ok: bool, find2Ok: bool)
    requires req.alignment > 0
  {
    && SearchFails(pre.Of(first).holes, req, find1Ok)
    && (first != fallback ==> SearchFails(pre.Of(fallback).holes, req, find2Ok))
  }

  // A handle names the manager that served it and the rounded extent; without one no
  // range is out, and the accounts are untouched unless both the handle's calloc and the
  // one needed to give the range back failed.
  ghost predicate AllocOutcome(pre: Books, post: Books, first: MgrId, fallback: MgrId, req: Request,
                               find1Ok: bool, find2Ok: bool, handleOk: bool, freeOk: bool,
                               ret: Errno, handle: Option<VaHandle>)
    requires req.alignment > 0
  {
    match handle
    case Some(h) =>
      && ret == Success && handleOk && h.size == req.size
      && ServedBy(pre, post, h.mgr, first, fallback, req, h.address, find1Ok, find2Ok)
    case None =>
      && ret == FailureOf(req)
      && (forall m: MgrId :: post.Of(m).live == pre.Of(m).live)
      && (handleOk ==> Unserved(pre, first, fallback, req, find1Ok, find2Ok))
      && (handleOk || freeOk ==> post == pre)
  }

  // What va_range_alloc promises, in its own arguments. The HIGH flag counts where there is a
  // high range; 32_BIT keeps to the window of the range's first address; without it the
  // 32-bit manager serves only when the wide one has no room or no memory.
  ghost predicate Routed(info: VaInfo, pre: Books, post: Books, flags: Flags, size: int, step: int, base: int,
                         find1Ok: bool, find2Ok: bool, handleOk: bool, ret: Errno, handle: Option<VaHandle>)
    requires step > 0
  {
    var high := flags.high && info.highMax != 0;
    var wide, narrow := if high then High else Low, if high then High32 else Low32;
    match handle
    case Some(h) =>
      && ret == Success && handleOk && h.size == size
      && (h.mgr == narrow || (!flags.is32Bit && h.mgr == wide))
      && (!flags.is32Bit && h.mgr == narrow ==> NoRoom(Free(pre.Of(wide).holes), size, step, base) || !find1Ok)
      && Found(pre.Of(h.mgr), post.Of(h.mgr), size, step, base, flags.replayable,
               if flags.is32Bit || h.mgr == wide then find1Ok else find2Ok, ret, h.address)
      && (if high then info.high else info.low) <= h.address
      && (flags.is32Bit && !high ==> h.address + size <= TWO_TO_32)
      && (flags.is32Bit && high ==>
            h.address / TWO_TO_32 == (h.address + size - 1) / TWO_TO_32 == info.high / TWO_TO_32)
    case None =>
      && (ret == EINVAL <==> base % step != 0) && ret in {EINVAL, ENOMEM}
      && (handleOk && base % step == 0 ==>
            && (NoRoom(Free(pre.Of(narrow).holes), size, step, base) || !find1Ok || !find2Ok)
            && (!flags.is32Bit ==> NoRoom(Free(pre.Of(wide).holes), size, step, base) || !find1Ok))
  }

  lemma FailsForRoomOrMemory(holes: seq<Hole>, req: Request, callocOk: bool)
    requires req.Valid() && req.base % req.alignment == 0 && SearchFails(holes, req, callocOk)
    ensures NoRoom(Free(holes), req.size, req.alignment, req.base) || !callocOk
  {
    if !NoRoom(Free(holes), req.size, req.alignment, req.base) {
      var c :| Range(c, req.size) <= Free(holes) && if req.base != 0 then c == req.base else c % req.alignment == 0;
      assert Candidate(Free(holes), c, req);
    }
  }

  // What a handle records is exactly what freeing it needs: the manager that served it,
  // even after a fallback, and an extent that rounding leaves alone.
  lemma HandleIsFreeable(pre: Books, post: Books, first: MgrId, fallback: MgrId,
                         alignment: int, size: int, align: int, base: int, top: bool,
                         find1Ok: bool, find2Ok: bool, handleOk: bool, freeOk: bool, h: VaHandle)
    requires IsPowerOfTwo(alignment) && alignment < TWO_TO_32
    requires 0 < size && size + alignment - 1 < TWO_TO_64
    requires alignment > 0
    requires AllocOutcome(pre, post, first, fallback, Rounded(alignment, size, align, base, top),
                          find1Ok, find2Ok, handleOk, freeOk, Success, Some(h))
    ensures h.Extent() in post.Of(h.mgr).live
    ensures size <= h.size < size + alignment && Align(h.size, alignment, TWO_TO_64) == h.size
    ensures h.mgr == first || h.mgr == fallback
  {
    RoundedSize(alignment, size);
    RoundUpIsLeast(size, alignment);
  }

  ghost predicate Separate(m: VaManager, n: VaManager)
    reads m, n
  {
    m != n && forall x :: x in m.ring ==> x !in n.ring
  }

  ghost predicate MadeOver(m: VaManager, span: Span, alignment: int)
    reads m, m.ring
  {
    && m.Valid() && m.State() == Initial(span.start, span.max)
    && m.vaStart == span.start && m.vaMax == span.max && m.vaAlignment == alignment
  }

  // Two managers over neighbouring ranges, as the device makes them.
  method InitPair(lowerSpan: Span, upperSpan: Span, alignment: int) returns (lower: VaManager, upper: VaManager)
    requires 0 <= lowerSpan.start <= lowerSpan.max < TWO_TO_64
    requires 0 <= upperSpan.start <= upperSpan.max < TWO_TO_64
    requires IsPowerOfTwo(alignment) && alignment < TWO_TO_32
    ensures MadeOver(lower, lowerSpan, alignment) && MadeOver(upper, upperSpan, alignment)
    ensures fresh(lower) && fresh(upper) && fresh(lower.ring) && fresh(upper.ring)
    ensures fresh(lower.Nodes()) && fresh(upper.Nodes())
    ensures Separate(lower, upper)
  {
    lower := new VaManager(lowerSpan.start, lowerSpan.max, alignment);
    upper := new VaManager(upperSpan.start, upperSpan.max, alignment);
  }

  class VaDevice {
    const info: VaInfo
    const vamgr: VaManager
    const vamgr32: VaManager
    const vamgrHigh: VaManager
    const vamgrHigh32: VaManager

    function Mgr(id: MgrId): VaManager {
      match id
      case Low => vamgr
      case Low32 => vamgr32
      case High => vamgrHigh
      case High32 => vamgrHigh32
    }

    ghost function Managers(): set<VaManager> {
      {vamgr, vamgr32, vamgrHigh, vamgrHigh32}
    }

    ghost function Accounts(): Books
      reads Managers()
    {
      Books(vamgr.State(), vamgr32.State(), vamgrHigh.State(), vamgrHigh32.State())
    }

    ghost predicate Apart()
      reads Managers()
    {
      forall a: MgrId, b: MgrId :: a != b ==> Separate(Mgr(a), Mgr(b))
    }

    // A manager of this device over its own range; one that cannot serve has nothing out.
    ghost predicate Serves(id: MgrId)
      reads Mgr(id), Mgr(id).ring
    {
      && Mgr(id).Valid()
      && Mgr(id).vaStart == info.SpanOf(id).start && Mgr(id).vaMax == info.SpanOf(id).max
      && Mgr(id).vaAlignment == info.alignment
      && (!info.Usable(id) ==> Mgr(id).live == {})
    }

    // Each manager's own books balance over its own range.
    ghost predicate Valid()
      reads Managers(), vamgr.ring, vamgr32.ring, vamgrHigh.ring, vamgrHigh32.ring
    {
      info.Valid() && Apart() && forall id: MgrId :: Serves(id)
    }

    constructor (info: VaInfo, low32: VaManager, low: VaManager, high32: VaManager, high: VaManager)
      requires info.Valid()
      requires MadeOver(low32, info.SpanOf(Low32), info.alignment) && MadeOver(low, info.SpanOf(Low), info.alignment)
      requires MadeOver(high32, info.SpanOf(High32), info.alignment)
      requires MadeOver(high, info.SpanOf(High), info.alignment)
      requires Separate(low32, low) && Separate(high32, high)
      requires Separate(low32, high32) && Separate(low32, high) && Separate(low, high32) && Separate(low, high)
      ensures Valid() && this.info == info
      ensures vamgr == low && vamgr32 == low32 && vamgrHigh == high && vamgrHigh32 == high32
      ensures forall id: MgrId :: MadeOver(Mgr(id), info.SpanOf(id), info.alignment)
    {
      this.info := info;
      vamgr, vamgr32, vamgrHigh, vamgrHigh32 := low, low32, high, high32;
      new;
      assert Apart();
      forall id: MgrId
        ensures MadeOver(Mgr(id), info.SpanOf(id), info.alignment)
        ensures Serves(id)
      {
        match id { case Low => case Low32 => case High => case High32 => }
      }
    }

    // The HIGH flag counts only where the high range exists.
    function First(flags: Flags): MgrId {
      Pick(flags.high && vamgrHigh32.vaMax != 0, flags.is32Bit)
    }

    function Fallback(flags: Flags): MgrId {
      Pick(flags.high && vamgrHigh32.vaMax != 0, true)
    }

    // What a request becomes in any of the managers: they share one alignment.
    function Normal(flags: Flags, size: int, alignment: int, base: int): Request
      requires size >= 0 && info.alignment > 0
    {
      Rounded(info.alignment, size, alignment, base, flags.replayable)
    }

    // The two searches of va_range_alloc.
    method SearchWithFallback(flags: Flags, req: Request, find1Ok: bool, find2Ok: bool)
        returns (ret: Errno, va: int, id: MgrId)
      requires Valid() && req.Valid() && req.fromTop == flags.replayable
      requires req.size + info.alignment - 1 < TWO_TO_64
      requires Rounded(info.alignment, req.size, req.alignment, req.base, req.fromTop) == req
      requires Harmless(First(flags), req)
      requires SearchFails(Mgr(First(flags)).holes, req, find1Ok) ==> Harmless(Fallback(flags), req)
      modifies Managers(), vamgr.Nodes(), vamgr32.Nodes(), vamgrHigh.Nodes(), vamgrHigh32.Nodes()
      ensures Valid() && NodesGrowFresh()
      ensures ret == Success ==>
                ServedBy(old(Accounts()), Accounts(), id, First(flags), Fallback(flags), req, va, find1Ok, find2Ok)
      ensures ret != Success ==>
                && ret == FailureOf(req) && Accounts() == old(Accounts())
                && Unserved(old(Accounts()), First(flags), Fallback(flags), req, find1Ok, find2Ok)
    {
      BothUsable(flags);
      var high := flags.high && vamgrHigh32.vaMax != 0;
      id := Pick(high, flags.is32Bit);
      ret, va := FindIn(id, req, find1Ok);
      if flags.is32Bit || ret == Success {
        return;
      }
      id := Pick(high, true);
      assert Mgr(id).Nodes() == old(Mgr(id).Nodes());
      ret, va := FindIn(id, req, find2Ok);
    }

    // amdgpu_va_range_alloc. find1Ok and find2Ok decide the callocs of the two searches,
    // handleOk that of the handle, freeOk the one that may be needed to undo.
    method RangeAlloc(flags: Flags, size: int, alignment: int, base: int,
                      find1Ok: bool, find2Ok: bool, handleOk: bool, freeOk: bool)
        returns (ret: Errno, handle: Option<VaHandle>)
      requires Valid()
      requires 0 < size && size + info.alignment - 1 < TWO_TO_64 && 0 <= base < TWO_TO_64
      requires Harmless(First(flags), Normal(flags, size, alignment, base))
      requires SearchFails(Mgr(First(flags)).holes, Normal(flags, size, alignment, base), find1Ok) ==>
                 Harmless(Fallback(flags), Normal(flags, size, alignment, base))
      modifies Managers(), vamgr.Nodes(), vamgr32.Nodes(), vamgrHigh.Nodes(), vamgrHigh32.Nodes()
      ensures Valid() && NodesGrowFresh()
      ensures AllocOutcome(old(Accounts()), Accounts(), First(flags), Fallback(flags),
                           Normal(flags, size, alignment, base),
                           find1Ok, find2Ok, handleOk, freeOk, ret, handle)
      ensures Routed(info, old(Accounts()), Accounts(), flags,
                     RoundUp(size, info.alignment), Max(alignment, info.alignment), base,
                     find1Ok, find2Ok, handleOk, ret, handle)
    {
      ret, handle := AllocRange(flags, size, alignment, base, find1Ok, find2Ok, handleOk, freeOk);
      if handle.Some? {
        HandleRouted(old(Accounts()), flags, size, alignment, base, find1Ok, find2Ok, handleOk, freeOk, handle.value);
      } else {
        RefusalRouted(old(Accounts()), flags, size, alignment, base, find1Ok, find2Ok, handleOk, freeOk, ret);
      }
    }

    // Where a range that is out lies, by the manager that has it out.
    lemma LiveBounds(id: MgrId, l: Hole)
      requires Valid() && l in Accounts().Of(id).live
      ensures (if id == Low || id == Low32 then info.low else info.high) <= l.offset
      ensures id == Low32 ==> l.End() <= TWO_TO_32
      ensures id == High32 ==> l.offset / TWO_TO_32 == (l.End() - 1) / TWO_TO_32 == info.high / TWO_TO_32
    {
      assert Accounts().Of(id) == Mgr(id).State();
      LiveInSpan(id, l);
      assert l.offset in Range(l.offset, l.size) && l.End() - 1 in Range(l.offset, l.size);
      SpansByAddress(info, l.offset);
      SpansByAddress(info, l.End() - 1);
    }

    // The handle's manager and place are what the flags and the request call for.
    lemma HandleRouted(pre: Books, flags: Flags, size: int, alignment: int, base: int,
                       find1Ok: bool, find2Ok: bool, handleOk: bool, freeOk: bool, h: VaHandle)
      requires Valid() && 0 < size && size + info.alignment - 1 < TWO_TO_64 && 0 <= base < TWO_TO_64
      requires AllocOutcome(pre, Accounts(), First(flags), Fallback(flags), Normal(flags, size, alignment, base),
                            find1Ok, find2Ok, handleOk, freeOk, Success, Some(h))
      ensures Routed(info, pre, Accounts(), flags, RoundUp(size, info.alignment), Max(alignment, info.alignment), base,
                     find1Ok, find2Ok, handleOk, Success, Some(h))
    {
      var req := Normal(flags, size, alignment, base);
      RoundedSize(info.alignment, size);
      HighRangeExists();
      HandleIsFreeable(pre, Accounts(), First(flags), Fallback(flags), info.alignment, size, alignment, base,
                       flags.replayable, find1Ok, find2Ok, handleOk, freeOk, h);
      LiveBounds(h.mgr, h.Extent());
      StepIsFound(pre.Of(h.mgr), Accounts().Of(h.mgr), info.alignment, size, alignment, base, flags.replayable,
                  if h.mgr == First(flags) then find1Ok else find2Ok, Success, h.address);
      if h.mgr != First(flags) {
        FailsForRoomOrMemory(pre.Of(First(flags)).holes, req, find1Ok);
      }
    }

    lemma RefusalRouted(pre: Books, flags: Flags, size: int, alignment: int, base: int,
                        find1Ok: bool, find2Ok: bool, handleOk: bool, freeOk: bool, ret: Errno)
      requires Valid() && 0 < size && size + info.alignment - 1 < TWO_TO_64 && 0 <= base < TWO_TO_64
      requires AllocOutcome(pre, Accounts(), First(flags), Fallback(flags), Normal(flags, size, alignment, base),
                            find1Ok, find2Ok, handleOk, freeOk, ret, None)
      ensures Routed(info, pre, Accounts(), flags, RoundUp(size, info.alignment), Max(alignment, info.alignment), base,
                     find1Ok, find2Ok, handleOk, ret, None)
    {
      var req := Normal(flags, size, alignment, base);
      RoundedSize(info.alignment, size);
      HighRangeExists();
      if handleOk && base % req.alignment == 0 {
        FailsForRoomOrMemory(pre.Of(First(flags)).holes, req, find1Ok);
        if !flags.is32Bit {
          FailsForRoomOrMemory(pre.Of(Fallback(flags)).holes, req, find2Ok);
        }
      }
    }

    lemma HighRangeExists()
      requires Valid()
      ensures vamgrHigh32.vaMax != 0 <==> info.highMax != 0
    {
      assert Serves(High32);
    }

    // The two searches and the handle.
    method AllocRange(flags: Flags, size: int, alignment: int, base: int,
                      find1Ok: bool, find2Ok: bool, handleOk: bool, freeOk: bool)
        returns (ret: Errno, handle: Option<VaHandle>)
      requires Valid()
      requires 0 < size && size + info.alignment - 1 < TWO_TO_64 && 0 <= base < TWO_TO_64
      requires Harmless(First(flags), Normal(flags, size, alignment, base))
      requires SearchFails(Mgr(First(flags)).holes, Normal(flags, size, alignment, base), find1Ok) ==>
                 Harmless(Fallback(flags), Normal(flags, size, alignment, base))
      modifies Managers(), vamgr.Nodes(), vamgr32.Nodes(), vamgrHigh.Nodes(), vamgrHigh32.Nodes()
      ensures Valid() && NodesGrowFresh()
      ensures AllocOutcome(old(Accounts()), Accounts(), First(flags), Fallback(flags),
                           Normal(flags, size, alignment, base),
                           find1Ok, find2Ok, handleOk, freeOk, ret, handle)
    {
      RoundedTwice(info.alignment, size, alignment, base, flags.replayable);
      var req := Normal(flags, size, alignment, base);
      ghost var pre := Accounts();
      AllBalanced();
      var va, id;
      ret, va, id := SearchWithFallback(flags, req, find1Ok, find2Ok);
      if ret != Success {
        return ret, None;
      }
      ret, handle := MakeHandle(id, req, va, handleOk, freeOk, pre, First(flags), Fallback(flags), find1Ok, find2Ok);
    }

    // The end of va_range_alloc: the handle, or the range given back for want of one.
    method MakeHandle(id: MgrId, req: Request, va: int, handleOk: bool, freeOk: bool,
                      ghost pre: Books, ghost first: MgrId, ghost fallback: MgrId,
                      ghost find1Ok: bool, ghost find2Ok: bool)
        returns (ret: Errno, handle: Option<VaHandle>)
      requires Valid() && req.Valid() && Align(req.size, info.alignment, TWO_TO_64) == req.size
      requires Balanced(pre.Of(id), info.SpanOf(id).start, info.SpanOf(id).max)
      requires ServedBy(pre, Accounts(), id, first, fallback, req, va, find1Ok, find2Ok)
      modifies Mgr(id), Mgr(id).Nodes()
      ensures Valid() && NodesGrowFresh()
      ensures AllocOutcome(pre, Accounts(), first, fallback, req, find1Ok, find2Ok, handleOk, freeOk, ret, handle)
    {
      if !handleOk {
        UndoAlloc(id, req, va, freeOk, pre, first, fallback, find1Ok, find2Ok);
        return ENOMEM, None;
      }
      return Success, Some(VaHandle(va, req.size, id));
    }

    lemma AllBalanced()
      requires Valid()
      ensures forall id: MgrId :: Balanced(Accounts().Of(id), info.SpanOf(id).start, info.SpanOf(id).max)
    {
      forall id: MgrId
        ensures Balanced(Accounts().Of(id), info.SpanOf(id).start, info.SpanOf(id).max)
      {
        assert Serves(id);
      }
    }

    // amdgpu_va_range_free: the extent goes back to the manager that served it, except
    // that a handle with address 0 is ignored and its range stays out.
    method RangeFree(handle: Option<VaHandle>, freeOk: bool)
      requires Valid()
      requires handle.Some? ==>
                 var h := handle.value;
                 && h.Extent() in Mgr(h.mgr).live && h.size >= 0
                 && Align(h.size, info.alignment, TWO_TO_64) == h.size
      modifies Managers(), vamgr.Nodes(), vamgr32.Nodes(), vamgrHigh.Nodes(), vamgrHigh32.Nodes()
      ensures Valid() && NodesGrowFresh()
      ensures handle.None? ==> Accounts() == old(Accounts())
      ensures handle.Some? ==>
                var h := handle.value;
                if h.address == 0 then Accounts() == old(Accounts())
                else
                  && Accounts().SameBut(old(Accounts()), h.mgr)
                  && StepBy(old(Accounts()).Of(h.mgr), Release(h.Extent(), freeOk), Accounts().Of(h.mgr))
                  && Freed(old(Accounts()).Of(h.mgr), Accounts().Of(h.mgr), Hole(h.address, h.size), freeOk)
    {
      if handle.None? || handle.value.address == 0 {
        return;
      }
      FreeIn(handle.value.mgr, handle.value.Extent(), freeOk);
    }

    // With the low and high ranges apart, no two ranges out anywhere on the device overlap.
    lemma LiveRangesDisjoint(a: MgrId, l: Hole, b: MgrId, m: Hole)
      requires Valid() && l in Mgr(a).live && m in Mgr(b).live && (a != b || l != m)
      requires info.RangesApart()
      ensures Range(l.offset, l.size) !! Range(m.offset, m.size)
    {
      LiveInSpan(a, l);
      LiveInSpan(b, m);
      if a != b {
        RangesApartIff(info);
      } else {
        AllBalanced();
      }
    }

    lemma LiveInSpan(id: MgrId, l: Hole)
      requires Valid() && l in Mgr(id).live
      ensures info.Usable(id) && l.size > 0 && Range(l.offset, l.size) <= info.SpanOf(id).Bytes()
    {
      assert Serves(id);
      LiveIsReleasable(Mgr(id).State(), l, info.SpanOf(id).start, info.SpanOf(id).max);
    }

    // Once every range is given back and none was lost, the device is as it was made.
    lemma DeviceDrained()
      requires Valid()
      requires forall id: MgrId :: Mgr(id).live == {} && Mgr(id).lost == iset{}
      ensures forall id: MgrId :: Accounts().Of(id) == Initial(info.SpanOf(id).start, info.SpanOf(id).max)
    {
      AllBalanced();
      SpansOrdered(info);
      forall id: MgrId
        ensures Accounts().Of(id) == Initial(info.SpanOf(id).start, info.SpanOf(id).max)
      {
        DrainedIsInitial(Mgr(id).State(), info.SpanOf(id).start, info.SpanOf(id).max);
      }
    }

    lemma BothUsable(flags: Flags)
      requires Valid()
      ensures info.Usable(First(flags)) && info.Usable(Fallback(flags))
    {
      assert Serves(High32);
    }

    // Every byte served for HIGH and 32_BIT has the upper half the library reports,
    // whether or not the device has a high range.
    lemma HighRangeHasReportedHalf(flags: Flags, l: Hole, a: int)
      requires Valid() && flags.high && flags.is32Bit
      requires l in Mgr(First(flags)).live && l.Has(a)
      ensures a / TWO_TO_32 == Address32Hi(info)
    {
      var id := First(flags);
      AllBalanced();
      assert Serves(High32);
      LiveIsReleasable(Accounts().Of(id), l, info.SpanOf(id).start, info.SpanOf(id).max);
      if id == High32 {
        assert a in info.SpanOf(High32).Bytes();
        HighWindowSharesUpperHalf(info, a);
      }
    }

    // The handle could not be allocated: give the range back.
    method UndoAlloc(id: MgrId, req: Request, va: int, freeOk: bool,
                     ghost pre: Books, ghost first: MgrId, ghost fallback: MgrId,
                     ghost find1Ok: bool, ghost find2Ok: bool)
      requires Valid() && req.Valid() && Align(req.size, info.alignment, TWO_TO_64) == req.size
      requires Balanced(pre.Of(id), info.SpanOf(id).start, info.SpanOf(id).max)
      requires ServedBy(pre, Accounts(), id, first, fallback, req, va, find1Ok, find2Ok)
      modifies Mgr(id), Mgr(id).Nodes()
      ensures Valid() && NodesGrowFresh()
      ensures forall m: MgrId :: Accounts().Of(m).live == pre.Of(m).live
      ensures freeOk ==> Accounts() == pre
    {
      ghost var mid := Accounts();
      assert Accounts().Of(id) == Mgr(id).State();
      FreeIn(id, Hole(va, req.size), freeOk);
      Undone(pre, mid, Accounts(), id, first, fallback, req, va, find1Ok, find2Ok, freeOk, info.SpanOf(id));
    }

    // find_va in one manager; the others are not touched.
    method FindIn(id: MgrId, req: Request, callocOk: bool) returns (ret: Errno, va: int)
      requires Valid() && req.Valid()
      requires req.size + info.alignment - 1 < TWO_TO_64
      requires Rounded(info.alignment, req.size, req.alignment, req.base, req.fromTop) == req
      requires Harmless(id, req) && info.Usable(id)
      modifies Mgr(id), Mgr(id).Nodes()
      ensures Valid() && Mgr(id).RingGrowsFresh() && OthersKept(id) && Accounts().SameBut(old(Accounts()), id)
      ensures ret != Success ==>
                && ret == FailureOf(req) && Accounts() == old(Accounts())
                && SearchFails(Accounts().Of(id).holes, req, callocOk)
      ensures StepBy(old(Accounts()).Of(id), Search(req, callocOk, ret, va), Accounts().Of(id))
    {
      assert Serves(id);
      ret, va := Mgr(id).FindVa(req.size, req.alignment, req.base, req.fromTop, callocOk);
      forall other: MgrId | other != id
        ensures unchanged(Mgr(other)) && forall n :: n in Mgr(other).ring ==> unchanged(n)
      {
        assert old(Separate(Mgr(other), Mgr(id)));
        forall n | n in Mgr(other).ring ensures unchanged(n) {
          assert n in old(Mgr(other).ring) && n !in old(Mgr(id).ring);
        }
      }
      StillValid(id);
      AccountsChanged(id);
      if ret != Success {
        FailedSearch(old(Accounts()).Of(id), Accounts().Of(id), req, callocOk, ret, va);
      }
    }

    // free_va in one manager; the others are not touched.
    method FreeIn(id: MgrId, range: Hole, callocOk: bool)
      requires Valid() && range in Mgr(id).live && range.size >= 0
      requires Align(range.size, info.alignment, TWO_TO_64) == range.size
      modifies Mgr(id), Mgr(id).Nodes()
      ensures Valid() && Mgr(id).RingGrowsFresh() && OthersKept(id) && Accounts().SameBut(old(Accounts()), id)
      ensures StepBy(old(Accounts()).Of(id), Release(range, callocOk), Accounts().Of(id))
    {
      assert Serves(id);
      LiveIsReleasable(Mgr(id).State(), range, Mgr(id).vaStart, Mgr(id).vaMax);
      Mgr(id).FreeVa(range.offset, range.size, callocOk);
      forall other: MgrId | other != id
        ensures unchanged(Mgr(other)) && forall n :: n in Mgr(other).ring ==> unchanged(n)
      {
        assert old(Separate(Mgr(other), Mgr(id)));
        forall n | n in Mgr(other).ring ensures unchanged(n) {
          assert n in old(Mgr(other).ring) && n !in old(Mgr(id).ring);
        }
      }
      StillValid(id);
      AccountsChanged(id);
    }

    twostate lemma AccountsChanged(id: MgrId)
      requires forall other: MgrId :: other != id ==> unchanged(Mgr(other))
      ensures Accounts().SameBut(old(Accounts()), id)
      ensures Accounts().Of(id) == Mgr(id).State() && old(Accounts()).Of(id) == old(Mgr(id).State())
    {
      assert id != Low ==> unchanged(Mgr(Low));
      assert id != Low32 ==> unchanged(Mgr(Low32));
      assert id != High ==> unchanged(Mgr(High));
      assert id != High32 ==> unchanged(Mgr(High32));
    }

    ghost predicate Harmless(id: MgrId, req: Request)
      requires req.alignment > 0
      reads Mgr(id)
    {
      HarmlessTo(Mgr(id).holes, req)
    }

    // The nodes any manager has gained were allocated since.
    twostate predicate NodesGrowFresh()
      reads Managers()
    {
      vamgr.RingGrowsFresh() && vamgr32.RingGrowsFresh() && vamgrHigh.RingGrowsFresh() && vamgrHigh32.RingGrowsFresh()
    }

    twostate predicate OthersKept(id: MgrId)
      reads Managers()
    {
      forall other: MgrId :: other != id ==>
        Mgr(other).ring == old(Mgr(other).ring)
    }

    twostate lemma StillValid(id: MgrId)
      requires old(Valid()) && Mgr(id).Valid() && Mgr(id).RingGrowsFresh()
      requires !info.Usable(id) ==> Mgr(id).live == {}
      requires forall other: MgrId :: other != id ==>
                 unchanged(Mgr(other)) && forall n :: n in Mgr(other).ring ==> unchanged(n)
      ensures Valid()
    {
      forall other: MgrId
        ensures Serves(other)
      {
        assert old(Serves(other));
        if other != id { Framed(Mgr(other)); }
      }
    }

    twostate lemma Framed(m: VaManager)
      requires old(m.Valid()) && unchanged(m) && forall n :: n in m.ring ==> unchanged(n)
      ensures m.Valid()
    {
      assert forall k :: 0 <= k < |m.ring| ==> m.ring[k] in m.ring;
    }
  }

  // The range arithmetic of amdgpu_device_initialize_haiku: two neighbouring low ranges that
  // cover the device up to its limit or 4 GiB, two neighbouring high ones that cover it up to
  // its limit or the end of a window, split where the upper half of the address changes.
  method Ranges(info: VaInfo) returns (low32: Span, low: Span, high32: Span, high: Span)
    requires info.Valid()
    ensures low32.start == info.low && low32.max == low.start && info.lowMax <= low.max && TWO_TO_32 <= low.max
    ensures high32.start == info.high && high32.max == high.start && info.highMax <= high.max
    ensures forall a :: a in low32.Bytes() <==> info.low <= a < info.lowMax && a / TWO_TO_32 == 0
    ensures forall a :: a in high32.Bytes() <==> info.high <= a < info.highMax && a / TWO_TO_32 == info.high / TWO_TO_32
    ensures low.max == info.lowMax || low.max == TWO_TO_32
    ensures high.max == info.highMax || (high.max - 1) / TWO_TO_32 == high.start / TWO_TO_32
    ensures low32 == info.SpanOf(Low32) && low == info.SpanOf(Low)
    ensures high32 == info.SpanOf(High32) && high == info.SpanOf(High)
  {
    var start := info.low;
    var max := Min(info.lowMax, TWO_TO_32);
    low32 := Span(start, max);

    start := max;
    max := Max(info.lowMax, TWO_TO_32);
    low := Span(start, max);

    start := info.high;
    max := Min(info.highMax, WindowEnd(start));
    high32 := Span(start, max);

    start := max;
    max := Max(info.highMax, WindowEnd(start));
    high := Span(start, max);

    forall a
      ensures a in low32.Bytes() <==> info.low <= a < info.lowMax && a / TWO_TO_32 == 0
      ensures a in high32.Bytes() <==> info.high <= a < info.highMax && a / TWO_TO_32 == info.high / TWO_TO_32
    {
      SpansByAddress(info, a);
    }
  }

  // The two high managers, beside the low ones.
  method InitHigh(info: VaInfo, vamgr32: VaManager, vamgr: VaManager, high32: Span, high: Span) returns (dev: VaDevice)
    requires info.Valid() && high32 == info.SpanOf(High32) && high == info.SpanOf(High)
    requires MadeOver(vamgr32, info.SpanOf(Low32), info.alignment) && MadeOver(vamgr, info.SpanOf(Low), info.alignment)
    requires Separate(vamgr32, vamgr)
    ensures dev.Valid() && dev.info == info && fresh(dev)
    ensures dev.vamgr == vamgr && dev.vamgr32 == vamgr32
    ensures fresh(dev.vamgrHigh32) && fresh(dev.vamgrHigh)
    ensures fresh(dev.vamgrHigh32.Nodes()) && fresh(dev.vamgrHigh.Nodes())
    ensures unchanged(vamgr) && unchanged(vamgr32)
    ensures forall id: MgrId :: MadeOver(dev.Mgr(id), info.SpanOf(id), info.alignment)
  {
    SpansOrdered(info);
    var vamgrHigh32, vamgrHigh := InitPair(high32, high, info.alignment);
    assert Separate(vamgr32, vamgrHigh32) && Separate(vamgr32, vamgrHigh);
    assert Separate(vamgr, vamgrHigh32) && Separate(vamgr, vamgrHigh);
    dev := new VaDevice(info, vamgr32, vamgr, vamgrHigh32, vamgrHigh);
  }

  method InitManagers(info: VaInfo) returns (dev: VaDevice)
    requires info.Valid()
    ensures dev.Valid() && dev.info == info
    ensures fresh(dev) && fresh(dev.vamgr) && fresh(dev.vamgr32) && fresh(dev.vamgrHigh) && fresh(dev.vamgrHigh32)
    ensures fresh(dev.vamgr.Nodes()) && fresh(dev.vamgr32.Nodes())
    ensures fresh(dev.vamgrHigh.Nodes()) && fresh(dev.vamgrHigh32.Nodes())
    ensures forall id: MgrId :: MadeOver(dev.Mgr(id), info.SpanOf(id), info.alignment)
  {
    var vamgr32, vamgr, high32, high := InitLow(info);
    dev := InitHigh(info, vamgr32, vamgr, high32, high);
  }

  // The low managers, and the spans of the high ones.
  method InitLow(info: VaInfo) returns (vamgr32: VaManager, vamgr: VaManager, high32: Span, high: Span)
    requires info.Valid()
    ensures high32 == info.SpanOf(High32) && high == info.SpanOf(High)
    ensures MadeOver(vamgr32, info.SpanOf(Low32), info.alignment) && MadeOver(vamgr, info.SpanOf(Low), info.alignment)
    ensures Separate(vamgr32, vamgr)
    ensures fresh(vamgr32) && fresh(vamgr) && fresh(vamgr32.Nodes()) && fresh(vamgr.Nodes())
  {
    SpansOrdered(info);
    var low32, low;
    low32, low, high32, high := Ranges(info);
    vamgr32, vamgr := InitPair(low32, low, info.alignment);
  }

  // A client that takes a range and frees it at once, with memory at hand for the free: every
  // account is as it was exactly unless the range served starts at address 0, which stays out.
  method TakeAndFree(dev: VaDevice, flags: Flags, size: int, alignment: int, base: int,
                     find1Ok: bool, find2Ok: bool, handleOk: bool)
      returns (ret: Errno, handle: Option<VaHandle>)
    requires dev.Valid()
    requires 0 < size && size + dev.info.alignment - 1 < TWO_TO_64 && 0 <= base < TWO_TO_64
    requires dev.Harmless(dev.First(flags), dev.Normal(flags, size, alignment, base))
    requires SearchFails(dev.Mgr(dev.First(flags)).holes, dev.Normal(flags, size, alignment, base), find1Ok) ==>
               dev.Harmless(dev.Fallback(flags), dev.Normal(flags, size, alignment, base))
    modifies dev.Managers(), dev.vamgr.Nodes(), dev.vamgr32.Nodes(), dev.vamgrHigh.Nodes(), dev.vamgrHigh32.Nodes()
    ensures dev.Valid() && dev.NodesGrowFresh()
    ensures dev.Accounts() == old(dev.Accounts()) <==> handle.None? || handle.value.address != 0
  {
    ghost var pre := dev.Accounts();
    dev.AllBalanced();
    ret, handle := dev.RangeAlloc(flags, size, alignment, base, find1Ok, find2Ok, handleOk, true);
    if handle.None? {
      return;
    }
    var h := handle.value;
    HandleIsFreeable(pre, dev.Accounts(), dev.First(flags), dev.Fallback(flags), dev.info.alignment,
                     size, alignment, base, flags.replayable, find1Ok, find2Ok, handleOk, true, h);
    FreeServed(dev, h, pre, dev.First(flags), dev.Fallback(flags), dev.Normal(flags, size, alignment, base),
               find1Ok, find2Ok);
  }

  method FreeServed(dev: VaDevice, h: VaHandle, ghost pre: Books, ghost first: MgrId, ghost fallback: MgrId,
                    ghost req: Request, ghost find1Ok: bool, ghost find2Ok: bool)
    requires dev.Valid() && req.Valid() && h.size == req.size
    requires h.Extent() in dev.Mgr(h.mgr).live && Align(h.size, dev.info.alignment, TWO_TO_64) == h.size
    requires Balanced(pre.Of(h.mgr), dev.info.SpanOf(h.mgr).start, dev.info.SpanOf(h.mgr).max)
    requires ServedBy(pre, dev.Accounts(), h.mgr, first, fallback, req, h.address, find1Ok, find2Ok)
    modifies dev.Managers(), dev.vamgr.Nodes(), dev.vamgr32.Nodes(), dev.vamgrHigh.Nodes(), dev.vamgrHigh32.Nodes()
    ensures dev.Valid() && dev.NodesGrowFresh()
    ensures dev.Accounts() == pre <==> h.address != 0
  {
    ghost var mid := dev.Accounts();
    dev.RangeFree(Some(h), true);
    FreedAtOnce(pre, mid, dev.Accounts(), first, fallback, req, find1Ok, find2Ok, h, dev.info.SpanOf(h.mgr));
  }
}
