// Whole runs of one manager: what every sequence of searches and frees keeps, and
// where it ends (amdgpu/amdgpu_vamgr.c:44-221).
module VaRuns {
  import opened Holes
  import opened Placement
  import opened Wrappers

  // The hole list, the ranges handed out and not yet given back, and the addresses
  // dropped by a free whose calloc failed.
  datatype VaState = VaState(holes: seq<Hole>, live: set<Hole>, lost: iset<int>)

  datatype Event =
    | Search(req: Request, callocOk: bool, ret: Errno, va: int)
    | Release(range: Hole, callocOk: bool)

  ghost predicate Keeps(free: iset<int>, va: int, size: int, callocOk: bool) {
    callocOk || va - 1 in free || va + size in free
  }

  ghost predicate StepBy(s: VaState, e: Event, t: VaState) {
    match e
    case Search(req, callocOk, ret, va) =>
      && req.Valid()
      && FindOutcome(s.holes, t.holes, req, callocOk, ret, va)
      && t.live == (if ret == Success then s.live + {Hole(va, req.size)} else s.live)
      && t.lost == s.lost
    case Release(range, callocOk) =>
      && range in s.live
      && FreeOutcome(s.holes, t.holes, range.offset, range.size, callocOk)
      && t.live == s.live - {range}
      && t.lost == if Keeps(Free(s.holes), range.offset, range.size, callocOk) then s.lost
                   else s.lost + Range(range.offset, range.size)
  }

  ghost predicate Run(states: seq<VaState>, events: seq<Event>) {
    && |states| == |events| + 1
    && forall i :: 0 <= i < |events| ==> StepBy(states[i], events[i], states[i + 1])
  }

  function Initial(start: int, max: int): VaState {
    VaState([Hole(start, max - start)], {}, iset{})
  }

  ghost predicate HeldBy(live: set<Hole>, a: int) {
    exists l :: l in live && l.Has(a)
  }

  ghost function Handed(live: set<Hole>): iset<int> {
    iset a: int | HeldBy(live, a)
  }

  // Every address of [start, max) is in exactly one place: a hole, one live range, or lost.
  ghost predicate Conserved(s: VaState, start: int, max: int) {
    && Canonical(s.holes)
    && Free(s.holes) + Handed(s.live) + s.lost == Range(start, max - start)
    && Free(s.holes) !! Handed(s.live)
    && Free(s.holes) !! s.lost
    && Handed(s.live) !! s.lost
    && (forall l :: l in s.live ==> l.size > 0)
    && (forall l, m :: l in s.live && m in s.live && l != m ==> Range(l.offset, l.size) !! Range(m.offset, m.size))
  }

  lemma InitialConserved(start: int, max: int)
    requires start < max
    ensures Conserved(Initial(start, max), start, max)
  {
    FreeOfOne(Hole(start, max - start));
    assert Handed({}) == iset{};
  }

  lemma HandedContains(live: set<Hole>, l: Hole)
    requires l in live
    ensures Range(l.offset, l.size) <= Handed(live)
  {
  }

  lemma SearchConserves(s: VaState, e: Event, t: VaState, start: int, max: int)
    requires Conserved(s, start, max) && e.Search? && StepBy(s, e, t)
    ensures Conserved(t, start, max)
  {
  }

  lemma ReleaseConserves(s: VaState, e: Event, t: VaState, start: int, max: int)
    requires Conserved(s, start, max) && e.Release? && StepBy(s, e, t)
    ensures Conserved(t, start, max)
  {
  }

  // A manager over an empty range has nothing to account for.
  ghost predicate Balanced(s: VaState, start: int, max: int) {
    if start < max then Conserved(s, start, max)
    else start == max && s == VaState([Hole(start, 0)], {}, iset{})
  }

  lemma InitialBalanced(start: int, max: int)
    requires start <= max
    ensures Balanced(Initial(start, max), start, max)
  {
    if start < max { InitialConserved(start, max); }
  }

  lemma BarrenRefuses(hs: seq<Hole>, req: Request)
    requires Barren(hs) && req.Valid()
    ensures forall va :: !Candidate(Free(hs), va, req)
  {
    forall va ensures !Candidate(Free(hs), va, req) {
      assert va in Range(va, req.size) && va !in Free(hs);
    }
  }

  lemma StepKeepsBalance(s: VaState, e: Event, t: VaState, start: int, max: int)
    requires Balanced(s, start, max) && StepBy(s, e, t)
    ensures Balanced(t, start, max)
  {
    if start < max {
      if e.Search? {
        SearchConserves(s, e, t, start, max);
      } else {
        ReleaseConserves(s, e, t, start, max);
      }
    } else if e.Search? {
      BarrenRefuses(s.holes, e.req);
    }
  }

  ghost function AfterRelease(s: VaState, post: seq<Hole>, range: Hole, callocOk: bool): VaState {
    VaState(post, s.live - {range},
            if Keeps(Free(s.holes), range.offset, range.size, callocOk) then s.lost
            else s.lost + Range(range.offset, range.size))
  }

  lemma ReleaseStep(s: VaState, post: seq<Hole>, range: Hole, callocOk: bool, start: int, max: int)
    requires Balanced(s, start, max) && range in s.live
    requires FreeOutcome(s.holes, post, range.offset, range.size, callocOk)
    ensures StepBy(s, Release(range, callocOk), AfterRelease(s, post, range, callocOk))
    ensures Balanced(AfterRelease(s, post, range, callocOk), start, max)
  {
  }

  ghost function AfterSearch(s: VaState, post: seq<Hole>, req: Request, ret: Errno, va: int): VaState {
    s.(holes := post, live := if ret == Success then s.live + {Hole(va, req.size)} else s.live)
  }

  lemma SearchStep(s: VaState, post: seq<Hole>, req: Request, callocOk: bool, ret: Errno, va: int, start: int, max: int)
    requires Balanced(s, start, max) && req.Valid() && FindOutcome(s.holes, post, req, callocOk, ret, va)
    ensures StepBy(s, Search(req, callocOk, ret, va), AfterSearch(s, post, req, ret, va))
    ensures Balanced(AfterSearch(s, post, req, ret, va), start, max)
  {
    StepKeepsBalance(s, Search(req, callocOk, ret, va), AfterSearch(s, post, req, ret, va), start, max);
  }

  // Conservation over every run.
  lemma {:induction false} RunConserves(states: seq<VaState>, events: seq<Event>, start: int, max: int)
    requires start < max && Run(states, events) && states[0] == Initial(start, max)
    ensures forall s :: s in states ==> Conserved(s, start, max)
  {
    InitialConserved(start, max);
    for i := 0 to |events|
      invariant forall k :: 0 <= k <= i ==> Conserved(states[k], start, max)
    {
      assert StepBy(states[i], events[i], states[i + 1]);
      StepKeepsBalance(states[i], events[i], states[i + 1], start, max);
    }
  }

  // A live range always meets what free_va asks of its caller.
  lemma LiveIsReleasable(s: VaState, l: Hole, start: int, max: int)
    requires Balanced(s, start, max) && l in s.live
    ensures Canonical(s.holes) && l.size > 0 && start <= l.offset && l.End() <= max
    ensures Range(l.offset, l.size) !! Free(s.holes)
  {
    HandedContains(s.live, l);
    assert l.offset in Range(l.offset, l.size) && l.End() - 1 in Range(l.offset, l.size);
  }

  // The hole list is a function of what is out: no history shows through.
  lemma HolesForgetHistory(s: VaState, t: VaState, start: int, max: int)
    requires Conserved(s, start, max) && Conserved(t, start, max)
    requires s.live == t.live && s.lost == t.lost
    ensures s.holes == t.holes
  {
    assert Free(s.holes) == Range(start, max - start) - Handed(s.live) - s.lost;
    assert Free(t.holes) == Range(start, max - start) - Handed(t.live) - t.lost;
    FreeDeterminesHoles(s.holes, t.holes);
  }

  // With nothing out and nothing lost a manager is as it was made.
  lemma DrainedIsInitial(s: VaState, start: int, max: int)
    requires start <= max && Balanced(s, start, max) && s.live == {} && s.lost == iset{}
    ensures s == Initial(start, max)
  {
    if start < max {
      InitialConserved(start, max);
      HolesForgetHistory(s, Initial(start, max), start, max);
    }
  }

  // Once everything is given back, in whatever order, the manager is as it was made.
  lemma FullDrain(states: seq<VaState>, events: seq<Event>, start: int, max: int)
    requires start < max && Run(states, events) && states[0] == Initial(start, max)
    requires states[|events|].live == {} && states[|events|].lost == iset{}
    ensures states[|events|].holes == [Hole(start, max - start)]
  {
    RunConserves(states, events, start, max);
    assert states[|events|] in states && states[0] in states;
    HolesForgetHistory(states[|events|], states[0], start, max);
  }

  // Addresses are lost only by a free whose calloc failed.
  lemma {:induction false} NothingLost(states: seq<VaState>, events: seq<Event>)
    requires Run(states, events) && states[0].lost == iset{}
    requires forall i :: 0 <= i < |events| && events[i].Release? ==> events[i].callocOk
    ensures forall i :: 0 <= i < |states| ==> states[i].lost == iset{}
  {
    for i := 0 to |events|
      invariant forall k :: 0 <= k <= i ==> states[k].lost == iset{}
    {
      assert StepBy(states[i], events[i], states[i + 1]);
    }
  }

  // Freeing what a search just returned restores the very same holes, exactly when the
  // free did not have to drop the range.
  lemma AllocThenFree(pre: seq<Hole>, mid: seq<Hole>, post: seq<Hole>, req: Request, findOk: bool, freeOk: bool,
                      va: int)
    requires Canonical(pre) && req.Valid()
    requires FindOutcome(pre, mid, req, findOk, Success, va)
    requires FreeOutcome(mid, post, va, req.size, freeOk)
    ensures post == pre <==> Keeps(Free(pre), va, req.size, freeOk)
  {
    assert Candidate(Free(pre), va, req);
    assert va - 1 !in Range(va, req.size) && va + req.size !in Range(va, req.size);
    if Keeps(Free(pre), va, req.size, freeOk) {
      assert Free(post) == Free(pre);
      FreeDeterminesHoles(post, pre);
    } else {
      assert va in Range(va, req.size);
      assert va in Free(pre) && va !in Free(post);
    }
  }
}
