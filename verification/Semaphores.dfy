// Software semaphores across submission queues as a state machine (amdgpu/amdgpu_cs.c):
// reference counts, per-queue wait lists and last sequence numbers, with a history of
// what happened.
module Semaphores {

  const HW_IP_NUM := 9
  const CS_MAX_RINGS := 8

  datatype Queue = Queue(ipType: int, ipInstance: int, ring: int) {
    predicate Valid() {
      0 <= ipType < HW_IP_NUM && ipInstance == 0 && 0 <= ring < CS_MAX_RINGS
    }
  }

  // struct amdgpu_cs_fence as the semaphore's signal_fence; NoFence is a NULL context.
  datatype Fence = NoFence | Signalled(context: Context, queue: Queue, seqNo: int)

  // struct drm_amdgpu_cs_chunk_dep
  datatype Dep = Dep(queue: Queue, ctxId: int, handle: int)

  datatype Place = Nowhere | At(context: Context, queue: Queue)

  class Semaphore {
    var refcount: int
    var fence: Fence
    ghost var held: bool    // the client has not destroyed it yet
    ghost var place: Place  // the wait list it is on

    constructor ()
      ensures refcount == 1 && fence == NoFence && held && place == Nowhere
    {
      refcount, fence, held, place := 1, NoFence, true, Nowhere;
    }
  }

  // An entry that was never written reads as calloc left it: 0, or an empty list.
  class Context {
    const id: int
    var lastSeq: map<Queue, int>
    var semList: map<Queue, seq<Semaphore>>

    constructor (id: int)
      ensures this.id == id && lastSeq == map[] && semList == map[]
    {
      this.id := id;
      lastSeq, semList := map[], map[];
    }
  }

  // ---- States ----

  datatype SemView = SemView(refcount: int, fence: Fence, held: bool, place: Place)

  datatype CtxView = CtxView(lastSeq: map<Queue, int>, semList: map<Queue, seq<Semaphore>>) {
    function Seq(q: Queue): int { if q in lastSeq then lastSeq[q] else 0 }
    function List(q: Queue): seq<Semaphore> { if q in semList then semList[q] else [] }
  }

  datatype Reply = Accepted(seqNo: int) | Rejected(code: int)

  datatype Event =
    | ESignal(sem: Semaphore, context: Context, queue: Queue)
    | EWait(sem: Semaphore, context: Context, queue: Queue)
    | ESubmit(context: Context, queue: Queue, consumed: seq<Semaphore>, deps: seq<Dep>, reply: Reply)

  // Allocated semaphores, live contexts, every context there ever was, and the history.
  datatype State = State(sems: map<Semaphore, SemView>, ctxs: map<Context, CtxView>, ever: set<Context>,
                           log: seq<Event>)

  const EMPTY_STATE := State(map[], map[], {}, [])

  // ---- Operations ----

  datatype Op =
    | CreateSem(sem: Semaphore)
    | Signal(context: Context?, queue: Queue, target: Semaphore?)
    | Wait(context: Context?, queue: Queue, target: Semaphore?)
    | Destroy(target: Semaphore?)
    | CreateCtx(ctx: Context)
    | FreeCtx(ctx: Context)
    | Submit(ctx: Context, queue: Queue, ibs: nat, reply: Reply)

  ghost predicate BadQueue(q: Queue) { q.ipType >= HW_IP_NUM || q.ring >= CS_MAX_RINGS }

  ghost predicate CanSignal(s: State, c: Context?, q: Queue, sem: Semaphore?)
    requires sem != null ==> sem in s.sems
  {
    c != null && sem != null && !BadQueue(q) && s.sems[sem].fence == NoFence
  }

  ghost predicate CanWait(s: State, c: Context?, q: Queue, sem: Semaphore?)
    requires sem != null ==> sem in s.sems
  {
    c != null && sem != null && !BadQueue(q) && s.sems[sem].fence != NoFence
  }

  // What the callers of the library owe it. Handles are live, the instance index is 0, a
  // semaphore is not waited on while it is already queued, and a context outlives the
  // semaphores it signalled unless they wait on the context itself.
  ghost predicate Allowed(s: State, op: Op) {
    match op
    case CreateSem(sem) => sem !in s.sems
    case Signal(c, q, sem) =>
      && (c != null ==> c in s.ctxs) && (sem != null ==> sem in s.sems && s.sems[sem].held)
      && 0 <= q.ipType && q.ipInstance == 0 && 0 <= q.ring
    case Wait(c, q, sem) =>
      && (c != null ==> c in s.ctxs)
      && (sem != null ==> sem in s.sems && s.sems[sem].held && s.sems[sem].place == Nowhere)
      && 0 <= q.ipType && q.ipInstance == 0 && 0 <= q.ring
    case Destroy(sem) => sem != null ==> sem in s.sems && s.sems[sem].held
    case CreateCtx(c) => c !in s.ever
    case FreeCtx(c) =>
      && c in s.ctxs
      && forall x :: x in s.sems && s.sems[x].fence != NoFence && s.sems[x].fence.context == c ==>
           s.sems[x].place != Nowhere && s.sems[x].place.context == c
    case Submit(c, q, ibs, reply) => c in s.ctxs && 0 <= q.ipType && q.ipInstance == 0 && 0 <= q.ring
  }

  // reset_sem and unreference_sem on every consumed semaphore; one whose count reaches
  // zero is freed.
  ghost function Released(sems: map<Semaphore, SemView>, consumed: set<Semaphore>): map<Semaphore, SemView> {
    map x | x in sems && (x in consumed ==> sems[x].refcount != 1) ::
      if x in consumed then SemView(sems[x].refcount - 1, NoFence, sems[x].held, Nowhere) else sems[x]
  }

  ghost function Elems(xs: seq<Semaphore>): set<Semaphore> { set x | x in xs }

  ghost function AllQueued(v: CtxView): set<Semaphore> {
    set q, x | q in v.semList && x in v.semList[q] :: x
  }

  // The dependency a waited semaphore turns into.
  ghost function DepOf(f: Fence): Dep {
    match f
    case NoFence => Dep(Queue(0, 0, 0), 0, 0)
    case Signalled(c, q, seqNo) => Dep(q, c.id, seqNo)
  }

  ghost function Deps(s: State, xs: seq<Semaphore>): seq<Dep> {
    seq(|xs|, i requires 0 <= i < |xs| => if xs[i] in s.sems then DepOf(s.sems[xs[i]].fence) else DepOf(NoFence))
  }

  ghost function Next(s: State, op: Op): State
    requires Allowed(s, op)
  {
    match op
    case CreateSem(sem) => s.(sems := s.sems[sem := SemView(1, NoFence, true, Nowhere)])
    case Signal(c, q, sem) =>
      if !CanSignal(s, c, q, sem) then s
      else
        var v := s.sems[sem];
        s.(sems := s.sems[sem := v.(fence := Signalled(c, q, s.ctxs[c].Seq(q)), refcount := v.refcount + 1)],
           log := s.log + [ESignal(sem, c, q)])
    case Wait(c, q, sem) =>
      if !CanWait(s, c, q, sem) then s
      else
        var v := s.ctxs[c];
        s.(sems := s.sems[sem := s.sems[sem].(place := At(c, q))],
           ctxs := s.ctxs[c := v.(semList := v.semList[q := [sem] + v.List(q)])],
           log := s.log + [EWait(sem, c, q)])
    case Destroy(sem) =>
      if sem == null then s
      else if s.sems[sem].refcount == 1 then s.(sems := s.sems - {sem})
      else s.(sems := s.sems[sem := s.sems[sem].(refcount := s.sems[sem].refcount - 1, held := false)])
    case CreateCtx(c) =>
      s.(ctxs := s.ctxs[c := CtxView(map[], map[])], ever := s.ever + {c})
    case FreeCtx(c) =>
      s.(sems := Released(s.sems, AllQueued(s.ctxs[c])), ctxs := s.ctxs - {c})
    case Submit(c, q, ibs, reply) =>
      if BadQueue(q) || ibs == 0 then s
      else
        var v := s.ctxs[c];
        var consumed := v.List(q);
        var drained := if consumed == [] then v else v.(semList := v.semList[q := []]);
        s.(sems := Released(s.sems, Elems(consumed)),
           ctxs := s.ctxs[c := if reply.Accepted? then drained.(lastSeq := v.lastSeq[q := reply.seqNo]) else drained],
           log := s.log + [ESubmit(c, q, consumed, Deps(s, consumed), reply)])
  }

  lemma ReleasedMore(sems: map<Semaphore, SemView>, done: set<Semaphore>, more: set<Semaphore>)
    requires done !! more
    ensures Released(Released(sems, done), more) == Released(sems, done + more)
  {
  }

  // ---- Ownership ----

  // The count is one for the client and one for a signal not yet consumed; nothing with
  // count zero exists.
  ghost predicate CountsRight(s: State) {
    forall x :: x in s.sems ==>
      var v := s.sems[x];
      v.refcount == (if v.held then 1 else 0) + (if v.fence == NoFence then 0 else 1) && v.refcount > 0
  }

  // A wait list holds each of its semaphores once, and a semaphore knows the one list it
  // is on; only signalled semaphores wait, for a context that still exists.
  ghost predicate ListsRight(s: State) {
    && (forall c, q, i :: c in s.ctxs && 0 <= i < |s.ctxs[c].List(q)| ==>
          var x := s.ctxs[c].List(q)[i]; x in s.sems && s.sems[x].place == At(c, q))
    && (forall c, q, i, j :: c in s.ctxs && 0 <= i < j < |s.ctxs[c].List(q)| ==>
          s.ctxs[c].List(q)[i] != s.ctxs[c].List(q)[j])
    && (forall x :: x in s.sems && s.sems[x].place != Nowhere ==>
          var p := s.sems[x].place;
          p.context in s.ctxs && x in s.ctxs[p.context].List(p.queue) && s.sems[x].fence != NoFence)
    && (forall x :: x in s.sems && s.sems[x].fence != NoFence ==> s.sems[x].fence.context in s.ctxs)
    && (forall c, q :: c in s.ctxs && q in s.ctxs[c].semList ==> q.Valid())
    && s.ctxs.Keys <= s.ever
  }

  lemma NextCountsRight(s: State, op: Op)
    requires CountsRight(s) && ListsRight(s) && Allowed(s, op)
    ensures CountsRight(Next(s, op))
  {
    match op
    case CreateSem(sem) =>
    case Signal(c, q, sem) =>
    case Wait(c, q, sem) =>
    case Destroy(sem) =>
    case CreateCtx(c) =>
    case FreeCtx(c) => QueuedAreSignalled(s, c);
    case Submit(c, q, ibs, reply) => ListedAreSignalled(s, c, q);
  }

  lemma ListedAreSignalled(s: State, c: Context, q: Queue)
    requires ListsRight(s) && c in s.ctxs
    ensures forall x :: x in Elems(s.ctxs[c].List(q)) ==>
              x in s.sems && s.sems[x].place == At(c, q) && s.sems[x].fence != NoFence
  {
  }

  lemma QueuedAreSignalled(s: State, c: Context)
    requires ListsRight(s) && c in s.ctxs
    ensures forall x :: x in s.sems ==>
              (x in AllQueued(s.ctxs[c]) <==> s.sems[x].place != Nowhere && s.sems[x].place.context == c)
    ensures forall x :: x in AllQueued(s.ctxs[c]) ==> x in s.sems && s.sems[x].fence != NoFence
  {
    var v := s.ctxs[c];
    forall x | x in AllQueued(v)
      ensures x in s.sems && s.sems[x].fence != NoFence && s.sems[x].place != Nowhere && s.sems[x].place.context == c
    {
      var q :| q in v.semList && x in v.semList[q];
      assert v.List(q) == v.semList[q];
      var i :| 0 <= i < |v.List(q)| && v.List(q)[i] == x;
    }
    forall x | x in s.sems && s.sems[x].place != Nowhere && s.sems[x].place.context == c ensures x in AllQueued(v) {
      assert x in v.List(s.sems[x].place.queue);
    }
  }

  lemma NextListsRight(s: State, op: Op)
    requires CountsRight(s) && ListsRight(s) && Allowed(s, op)
    ensures ListsRight(Next(s, op))
  {
    match op
    case CreateSem(sem) => SameListsRight(s, Next(s, op));
    case Signal(c, q, sem) => SameListsRight(s, Next(s, op));
    case Wait(c, q, sem) => if CanWait(s, c, q, sem) { WaitListsRight(s, c, q, sem); }
    case Destroy(sem) => SameListsRight(s, Next(s, op));
    case CreateCtx(c) => CreateListsRight(s, c);
    case FreeCtx(c) => FreeListsRight(s, c);
    case Submit(c, q, ibs, reply) => SubmitListsRight(s, c, q, ibs, reply);
  }

  // Steps that touch no list and keep every listed semaphore where it is.
  lemma SameListsRight(s: State, t: State)
    requires ListsRight(s) && t.ctxs == s.ctxs && t.ever == s.ever
    requires forall x :: x in s.sems && s.sems[x].place != Nowhere ==> x in t.sems
    requires forall x :: x in t.sems ==>
               && t.sems[x].place == (if x in s.sems then s.sems[x].place else Nowhere)
               && (t.sems[x].fence != NoFence ==> t.sems[x].fence.context in s.ctxs)
               && (x in s.sems && s.sems[x].fence != NoFence ==> t.sems[x].fence != NoFence)
    ensures ListsRight(t)
  {
  }

  lemma CreateListsRight(s: State, c: Context)
    requires ListsRight(s) && Allowed(s, CreateCtx(c))
    ensures ListsRight(Next(s, CreateCtx(c)))
  {
  }

  lemma WaitListsRight(s: State, c: Context, q: Queue, sem: Semaphore)
    requires CountsRight(s) && ListsRight(s) && Allowed(s, Wait(c, q, sem)) && CanWait(s, c, q, sem)
    ensures ListsRight(Next(s, Wait(c, q, sem)))
  {
    var t := Next(s, Wait(c, q, sem));
    assert t.ctxs[c].List(q) == [sem] + s.ctxs[c].List(q);
    forall d, r | d in t.ctxs && (d != c || r != q) ensures t.ctxs[d].List(r) == s.ctxs[d].List(r) {}
    forall x | x in t.sems && t.sems[x].place != Nowhere
      ensures x in t.ctxs[t.sems[x].place.context].List(t.sems[x].place.queue)
    {
      if x != sem { assert x in s.ctxs[s.sems[x].place.context].List(s.sems[x].place.queue); }
    }
  }

  lemma FreeListsRight(s: State, c: Context)
    requires CountsRight(s) && ListsRight(s) && Allowed(s, FreeCtx(c))
    ensures ListsRight(Next(s, FreeCtx(c)))
  {
    QueuedAreSignalled(s, c);
  }

  // What a submission leaves of the semaphores, the lists and the numbers.
  ghost predicate SubmitShape(s: State, t: State, c: Context, q: Queue, e: Event)
    requires e.ESubmit?
  {
    && t.log == s.log + [e] && t.ever == s.ever && t.ctxs.Keys == s.ctxs.Keys
    && (forall x :: x in t.sems ==>
          && x in s.sems
          && if x in e.consumed then t.sems[x].fence == NoFence && t.sems[x].place == Nowhere
             else t.sems[x] == s.sems[x])
    && (forall x :: x in s.sems && x !in e.consumed ==> x in t.sems)
    && (forall d, r :: d in t.ctxs ==> t.ctxs[d].List(r) == if d == c && r == q then [] else s.ctxs[d].List(r))
    && (forall d :: d in t.ctxs ==> t.ctxs[d].semList.Keys == s.ctxs[d].semList.Keys)
    && (forall d, r :: d in t.ctxs ==>
          t.ctxs[d].Seq(r) == if d == c && r == q && e.reply.Accepted? then e.reply.seqNo else s.ctxs[d].Seq(r))
  }

  lemma SubmitHasShape(s: State, c: Context, q: Queue, ibs: nat, reply: Reply)
    requires Allowed(s, Submit(c, q, ibs, reply)) && !BadQueue(q) && ibs != 0
    ensures var xs := s.ctxs[c].List(q);
            SubmitShape(s, Next(s, Submit(c, q, ibs, reply)), c, q, ESubmit(c, q, xs, Deps(s, xs), reply))
  {
  }

  lemma SubmitListsRight(s: State, c: Context, q: Queue, ibs: nat, reply: Reply)
    requires CountsRight(s) && ListsRight(s) && Allowed(s, Submit(c, q, ibs, reply))
    ensures ListsRight(Next(s, Submit(c, q, ibs, reply)))
  {
    if !BadQueue(q) && ibs != 0 {
      var xs := s.ctxs[c].List(q);
      SubmitHasShape(s, c, q, ibs, reply);
      ShapedListsRight(s, Next(s, Submit(c, q, ibs, reply)), c, q, ESubmit(c, q, xs, Deps(s, xs), reply));
    }
  }

  lemma ShapedListsRight(s: State, t: State, c: Context, q: Queue, e: Event)
    requires ListsRight(s) && c in s.ctxs
    requires e.ESubmit? && e.consumed == s.ctxs[c].List(q) && SubmitShape(s, t, c, q, e)
    ensures ListsRight(t)
  {
    ListedAreSignalled(s, c, q);
    forall d, r, i | d in t.ctxs && 0 <= i < |t.ctxs[d].List(r)|
      ensures var x := t.ctxs[d].List(r)[i]; x in t.sems && t.sems[x].place == At(d, r)
    {
      assert t.ctxs[d].List(r) == s.ctxs[d].List(r);
      assert s.ctxs[d].List(r)[i] !in e.consumed;
    }
    forall x | x in t.sems && t.sems[x].place != Nowhere
      ensures x in t.ctxs[t.sems[x].place.context].List(t.sems[x].place.queue)
    {
      assert x in s.ctxs[s.sems[x].place.context].List(s.sems[x].place.queue);
    }
    forall d, r | d in t.ctxs && r in t.ctxs[d].semList ensures r.Valid() {
    }
  }

  // ---- Ordering ----

  // The sequence number of the latest accepted submission on a queue; 0 before the first.
  ghost function Latest(log: seq<Event>, c: Context, q: Queue): int {
    if log == [] then 0
    else
      var e := log[|log| - 1];
      if e.ESubmit? && e.context == c && e.queue == q && e.reply.Accepted? then e.reply.seqNo
      else Latest(log[..|log| - 1], c, q)
  }

  ghost function LastSignal(log: seq<Event>, x: Semaphore): (i: int)
    ensures -1 <= i < |log| && (i >= 0 ==> log[i].ESignal? && log[i].sem == x)
    ensures forall k :: i < k < |log| && log[k].ESignal? ==> log[k].sem != x
  {
    if log == [] then -1
    else if log[|log| - 1].ESignal? && log[|log| - 1].sem == x then |log| - 1
    else LastSignal(log[..|log| - 1], x)
  }

  ghost function LastWait(log: seq<Event>, x: Semaphore): (i: int)
    ensures -1 <= i < |log| && (i >= 0 ==> log[i].EWait? && log[i].sem == x)
    ensures forall k :: i < k < |log| && log[k].EWait? ==> log[k].sem != x
  {
    if log == [] then -1
    else if log[|log| - 1].EWait? && log[|log| - 1].sem == x then |log| - 1
    else LastWait(log[..|log| - 1], x)
  }

  // x carries the state its last signal found on the queue it was given.
  ghost predicate FenceDated(log: seq<Event>, x: Semaphore, f: Fence) {
    f != NoFence ==>
      var i := LastSignal(log, x);
      i >= 0 && log[i] == ESignal(x, f.context, f.queue) && f.seqNo == Latest(log[..i], f.context, f.queue)
  }

  // x was put on its list after it was signalled.
  ghost predicate WaitDated(log: seq<Event>, x: Semaphore, p: Place) {
    p != Nowhere ==>
      var k := LastWait(log, x);
      k > LastSignal(log, x) && log[k] == EWait(x, p.context, p.queue)
  }

  ghost predicate LatestFirst(log: seq<Event>, xs: seq<Semaphore>) {
    forall i, j :: 0 <= i < j < |xs| ==> LastWait(log, xs[i]) > LastWait(log, xs[j])
  }

  // One dependency of a submission: it names the queue given to the last signal before the
  // wait, and the number that was the latest accepted there when the signal was made.
  ghost predicate Justified(before: seq<Event>, c: Context, q: Queue, x: Semaphore, d: Dep) {
    var i, k := LastSignal(before, x), LastWait(before, x);
    && 0 <= i < k && before[k] == EWait(x, c, q)
    && before[i].ESignal?
    && d == Dep(before[i].queue, before[i].context.id, Latest(before[..i], before[i].context, before[i].queue))
  }

  ghost predicate SubmitJustified(before: seq<Event>, e: Event)
    requires e.ESubmit?
  {
    && |e.deps| == |e.consumed|
    && (forall j :: 0 <= j < |e.consumed| ==> Justified(before, e.context, e.queue, e.consumed[j], e.deps[j]))
    && LatestFirst(before, e.consumed)
  }

  ghost predicate Ordered(s: State) {
    && (forall c, q :: c in s.ctxs ==> s.ctxs[c].Seq(q) == Latest(s.log, c, q))
    && (forall n :: 0 <= n < |s.log| ==> s.log[n].context in s.ever)
    && (forall x :: x in s.sems ==> FenceDated(s.log, x, s.sems[x].fence) && WaitDated(s.log, x, s.sems[x].place))
    && (forall c, q :: c in s.ctxs ==> LatestFirst(s.log, s.ctxs[c].List(q)))
    && (forall n :: 0 <= n < |s.log| && s.log[n].ESubmit? ==> SubmitJustified(s.log[..n], s.log[n]))
  }

  lemma {:induction false} LatestOfStranger(log: seq<Event>, c: Context, q: Queue)
    requires forall n :: 0 <= n < |log| ==> log[n].context != c
    ensures Latest(log, c, q) == 0
  {
    if log != [] { LatestOfStranger(log[..|log| - 1], c, q); }
  }

  lemma Appended(log: seq<Event>, e: Event)
    ensures (log + [e])[..|log|] == log
    ensures forall x :: LastSignal(log + [e], x) == if e.ESignal? && e.sem == x then |log| else LastSignal(log, x)
    ensures forall x :: LastWait(log + [e], x) == if e.EWait? && e.sem == x then |log| else LastWait(log, x)
    ensures forall n :: 0 <= n <= |log| ==> (log + [e])[..n] == log[..n]
  {
  }

  lemma LatestAppended(log: seq<Event>, e: Event, c: Context, q: Queue)
    ensures Latest(log + [e], c, q) ==
            if e.ESubmit? && e.context == c && e.queue == q && e.reply.Accepted? then e.reply.seqNo
            else Latest(log, c, q)
  {
  }

  lemma DatesKept(log: seq<Event>, e: Event, x: Semaphore, v: SemView)
    requires FenceDated(log, x, v.fence) && WaitDated(log, x, v.place)
    requires e.ESubmit? || e.sem != x
    ensures FenceDated(log + [e], x, v.fence) && WaitDated(log + [e], x, v.place)
  {
    Appended(log, e);
  }

  lemma HistoryKept(log: seq<Event>, e: Event)
    requires forall n :: 0 <= n < |log| && log[n].ESubmit? ==> SubmitJustified(log[..n], log[n])
    requires e.ESubmit? ==> SubmitJustified(log, e)
    ensures var more := log + [e];
            forall n :: 0 <= n < |more| && more[n].ESubmit? ==> SubmitJustified(more[..n], more[n])
  {
    var more := log + [e];
    forall n | 0 <= n < |more| && more[n].ESubmit? ensures SubmitJustified(more[..n], more[n]) {
      assert more[..n] == log[..n];
      if n == |log| { assert log[..n] == log; }
    }
  }

  lemma OrderKept(log: seq<Event>, e: Event, xs: seq<Semaphore>)
    requires LatestFirst(log, xs) && (e.EWait? ==> e.sem !in xs)
    ensures LatestFirst(log + [e], xs)
  {
  }

  // Steps that add no event.
  lemma QuietOrdered(s: State, t: State)
    requires Ordered(s) && t.log == s.log && s.ever <= t.ever
    requires forall c :: c in t.ctxs ==>
               if c in s.ctxs then t.ctxs[c] == s.ctxs[c] else t.ctxs[c] == CtxView(map[], map[]) && c !in s.ever
    requires forall x :: x in t.sems ==>
               && (t.sems[x].fence == NoFence || (x in s.sems && t.sems[x].fence == s.sems[x].fence))
               && (t.sems[x].place == Nowhere || (x in s.sems && t.sems[x].place == s.sems[x].place))
    ensures Ordered(t)
  {
    forall c, q | c in t.ctxs ensures t.ctxs[c].Seq(q) == Latest(t.log, c, q) && LatestFirst(t.log, t.ctxs[c].List(q)) {
      if c !in s.ctxs { LatestOfStranger(s.log, c, q); }
    }
  }

  lemma SignalOrdered(s: State, c: Context, q: Queue, sem: Semaphore)
    requires CountsRight(s) && ListsRight(s) && Ordered(s)
    requires Allowed(s, Signal(c, q, sem)) && CanSignal(s, c, q, sem)
    ensures Ordered(Next(s, Signal(c, q, sem)))
  {
    var t, e := Next(s, Signal(c, q, sem)), ESignal(sem, c, q);
    Appended(s.log, e);
    HistoryKept(s.log, e);
    assert s.sems[sem].place == Nowhere;
    forall x | x in t.sems ensures FenceDated(t.log, x, t.sems[x].fence) && WaitDated(t.log, x, t.sems[x].place) {
      if x != sem { DatesKept(s.log, e, x, s.sems[x]); }
    }
    forall d, r | d in t.ctxs
      ensures t.ctxs[d].Seq(r) == Latest(t.log, d, r) && LatestFirst(t.log, t.ctxs[d].List(r))
    {
      LatestAppended(s.log, e, d, r);
      OrderKept(s.log, e, s.ctxs[d].List(r));
    }
  }

  lemma FrontIsLatest(log: seq<Event>, e: Event, xs: seq<Semaphore>)
    requires e.EWait? && e.sem !in xs && LatestFirst(log, xs)
    ensures LatestFirst(log + [e], [e.sem] + xs)
  {
  }

  lemma WaitOrdered(s: State, c: Context, q: Queue, sem: Semaphore)
    requires CountsRight(s) && ListsRight(s) && Ordered(s)
    requires Allowed(s, Wait(c, q, sem)) && CanWait(s, c, q, sem)
    ensures Ordered(Next(s, Wait(c, q, sem)))
  {
    var t, e := Next(s, Wait(c, q, sem)), EWait(sem, c, q);
    Appended(s.log, e);
    HistoryKept(s.log, e);
    forall x | x in t.sems ensures FenceDated(t.log, x, t.sems[x].fence) && WaitDated(t.log, x, t.sems[x].place) {
      if x != sem { DatesKept(s.log, e, x, s.sems[x]); }
    }
    forall d, r | d in t.ctxs
      ensures t.ctxs[d].Seq(r) == Latest(t.log, d, r) && LatestFirst(t.log, t.ctxs[d].List(r))
    {
      LatestAppended(s.log, e, d, r);
      if d == c && r == q {
        FrontIsLatest(s.log, e, s.ctxs[c].List(q));
      } else {
        OrderKept(s.log, e, s.ctxs[d].List(r));
      }
    }
  }

  // What a submission takes off a list is justified by the history so far.
  lemma WaitersJustified(s: State, c: Context, q: Queue, e: Event)
    requires ListsRight(s) && Ordered(s) && c in s.ctxs
    requires e.ESubmit? && e.context == c && e.queue == q
    requires e.consumed == s.ctxs[c].List(q) && e.deps == Deps(s, e.consumed)
    ensures SubmitJustified(s.log, e)
  {
    forall j | 0 <= j < |e.consumed| ensures Justified(s.log, c, q, e.consumed[j], e.deps[j]) {
      assert s.sems[e.consumed[j]].place == At(c, q);
    }
  }

  lemma ShapedOrdered(s: State, t: State, c: Context, q: Queue, e: Event)
    requires ListsRight(s) && Ordered(s) && c in s.ctxs
    requires e.ESubmit? && e.context == c && e.queue == q && SubmitShape(s, t, c, q, e) && SubmitJustified(s.log, e)
    ensures Ordered(t)
  {
    HistoryKept(s.log, e);
    forall x | x in t.sems ensures FenceDated(t.log, x, t.sems[x].fence) && WaitDated(t.log, x, t.sems[x].place) {
      DatesKept(s.log, e, x, s.sems[x]);
    }
    forall d, r | d in t.ctxs
      ensures t.ctxs[d].Seq(r) == Latest(t.log, d, r) && LatestFirst(t.log, t.ctxs[d].List(r))
    {
      LatestAppended(s.log, e, d, r);
      OrderKept(s.log, e, s.ctxs[d].List(r));
    }
  }

  lemma SubmitOrdered(s: State, c: Context, q: Queue, ibs: nat, reply: Reply)
    requires CountsRight(s) && ListsRight(s) && Ordered(s)
    requires Allowed(s, Submit(c, q, ibs, reply)) && !BadQueue(q) && ibs != 0
    ensures Ordered(Next(s, Submit(c, q, ibs, reply)))
  {
    var xs := s.ctxs[c].List(q);
    var e := ESubmit(c, q, xs, Deps(s, xs), reply);
    WaitersJustified(s, c, q, e);
    SubmitHasShape(s, c, q, ibs, reply);
    ShapedOrdered(s, Next(s, Submit(c, q, ibs, reply)), c, q, e);
  }

  lemma NextOrdered(s: State, op: Op)
    requires CountsRight(s) && ListsRight(s) && Ordered(s) && Allowed(s, op)
    ensures Ordered(Next(s, op))
  {
    match op
    case CreateSem(sem) => QuietOrdered(s, Next(s, op));
    case Signal(c, q, sem) => if CanSignal(s, c, q, sem) { SignalOrdered(s, c, q, sem); }
    case Wait(c, q, sem) => if CanWait(s, c, q, sem) { WaitOrdered(s, c, q, sem); }
    case Destroy(sem) => QuietOrdered(s, Next(s, op));
    case CreateCtx(c) => QuietOrdered(s, Next(s, op));
    case FreeCtx(c) => QuietOrdered(s, Next(s, op));
    case Submit(c, q, ibs, reply) => if !BadQueue(q) && ibs != 0 { SubmitOrdered(s, c, q, ibs, reply); }
  }

  // ---- Whole runs ----

  ghost predicate Safe(s: State) { CountsRight(s) && ListsRight(s) && Ordered(s) }

  ghost predicate Run(states: seq<State>, ops: seq<Op>) {
    && |states| == |ops| + 1 && states[0] == EMPTY_STATE
    && forall i :: 0 <= i < |ops| ==> Allowed(states[i], ops[i]) && states[i + 1] == Next(states[i], ops[i])
  }

  lemma NextSafe(s: State, op: Op)
    requires Safe(s) && Allowed(s, op)
    ensures Safe(Next(s, op))
  {
    NextCountsRight(s, op);
    NextListsRight(s, op);
    NextOrdered(s, op);
  }

  lemma {:induction false} RunSafe(states: seq<State>, ops: seq<Op>)
    requires Run(states, ops)
    ensures forall i :: 0 <= i < |states| ==> Safe(states[i])
  {
    for i := 0 to |ops|
      invariant forall k :: 0 <= k <= i ==> Safe(states[k])
    {
      NextSafe(states[i], ops[i]);
    }
  }

  // Every dependency the kernel was ever given is the one its semaphore's signal fixed,
  // whatever was submitted between the signal and the wait.
  lemma EveryDependencyJustified(states: seq<State>, ops: seq<Op>)
    requires Run(states, ops)
    ensures var log := states[|ops|].log;
            forall n :: 0 <= n < |log| && log[n].ESubmit? ==> SubmitJustified(log[..n], log[n])
  {
    RunSafe(states, ops);
  }

  // No list ever leads to a freed semaphore or to one whose signalling context is gone.
  lemma QueuedIsAlive(states: seq<State>, ops: seq<Op>, i: nat, c: Context, q: Queue, x: Semaphore)
    requires Run(states, ops) && i < |states| && c in states[i].ctxs && x in states[i].ctxs[c].List(q)
    ensures x in states[i].sems && states[i].sems[x].refcount >= 1
    ensures states[i].sems[x].fence != NoFence && states[i].sems[x].fence.context in states[i].ctxs
  {
    RunSafe(states, ops);
    ListedAreSignalled(states[i], c, q);
  }

  // The semaphores a step consumes.
  ghost function Consumed(s: State, op: Op): set<Semaphore>
    requires Allowed(s, op)
  {
    match op
    case FreeCtx(c) => AllQueued(s.ctxs[c])
    case Submit(c, q, ibs, reply) => if BadQueue(q) || ibs == 0 then {} else Elems(s.ctxs[c].List(q))
    case _ => {}
  }

  // A semaphore is freed by exactly two kinds of step: its destruction once no signal is
  // pending, or the consumption of its signal once the client has destroyed it.
  lemma FreedExactlyWhen(s: State, op: Op, x: Semaphore)
    requires Safe(s) && Allowed(s, op) && x in s.sems
    ensures x !in Next(s, op).sems <==>
            || (op.Destroy? && op.target == x && s.sems[x].fence == NoFence)
            || (x in Consumed(s, op) && !s.sems[x].held)
  {
    match op
    case FreeCtx(c) => QueuedAreSignalled(s, c);
    case Submit(c, q, ibs, reply) => ListedAreSignalled(s, c, q);
    case _ =>
  }

  // ctx_free goes on from each entry through that entry's own link after releasing it. No
  // freed entry is read exactly when every semaphore on the context's lists is still held.
  lemma WalkReadsLiveEntriesIff(s: State, c: Context)
    requires Safe(s) && Allowed(s, FreeCtx(c))
    ensures (forall x :: x in AllQueued(s.ctxs[c]) ==> x in Next(s, FreeCtx(c)).sems)
            <==> forall x :: x in AllQueued(s.ctxs[c]) ==> x in s.sems && s.sems[x].held
  {
    QueuedAreSignalled(s, c);
    forall x | x in AllQueued(s.ctxs[c])
      ensures x in Next(s, FreeCtx(c)).sems <==> s.sems[x].held
    {
      FreedExactlyWhen(s, FreeCtx(c), x);
    }
  }

  // A run after which the walk reads a freed entry: the client destroys a semaphore that
  // still waits, and then frees the context.
  lemma FreedEntryIsRead(c: Context, x: Semaphore) returns (states: seq<State>, ops: seq<Op>)
    ensures Run(states, ops)
    ensures var s := states[|ops|];
            Allowed(s, FreeCtx(c)) && x in AllQueued(s.ctxs[c]) && x !in Next(s, FreeCtx(c)).sems
  {
    var q := Queue(0, 0, 0);
    ops := [CreateCtx(c), CreateSem(x), Signal(c, q, x), Wait(c, q, x), Destroy(x)];
    var s1 := Next(EMPTY_STATE, ops[0]);
    var s2 := Next(s1, ops[1]);
    var s3 := Next(s2, ops[2]);
    var s4 := Next(s3, ops[3]);
    var s5 := Next(s4, ops[4]);
    states := [EMPTY_STATE, s1, s2, s3, s4, s5];
    assert s2.sems[x] == SemView(1, NoFence, true, Nowhere) && s2.ctxs[c] == CtxView(map[], map[]);
    assert s3.sems[x] == SemView(2, Signalled(c, q, 0), true, Nowhere) && s3.ctxs == s2.ctxs;
    assert s4.sems[x] == SemView(2, Signalled(c, q, 0), true, At(c, q)) && s4.ctxs[c].semList[q] == [x];
    assert s5.sems[x].refcount == 1 && s5.ctxs == s4.ctxs;
    assert q in s5.ctxs[c].semList && x in s5.ctxs[c].semList[q];
  }

  // If the kernel numbers each queue's submissions upwards, a queue's last number never falls.
  ghost predicate SameQueueAccepted(e: Event, f: Event) {
    && e.ESubmit? && f.ESubmit? && e.context == f.context && e.queue == f.queue
    && e.reply.Accepted? && f.reply.Accepted?
  }

  ghost predicate KernelIncreasing(log: seq<Event>) {
    && (forall n :: 0 <= n < |log| && log[n].ESubmit? && log[n].reply.Accepted? ==> log[n].reply.seqNo >= 0)
    && (forall m, n :: 0 <= m < n < |log| && SameQueueAccepted(log[m], log[n]) ==>
          log[m].reply.seqNo < log[n].reply.seqNo)
  }

  // What Latest is: the number of an accepted submission on the queue after which the log has
  // no other, or 0 when it has none at all.
  lemma {:induction false} LatestIsLogged(log: seq<Event>, c: Context, q: Queue) returns (n: int)
    ensures -1 <= n < |log|
    ensures n == -1 ==> Latest(log, c, q) == 0
    ensures forall k :: n < k < |log| && log[k].ESubmit? && log[k].context == c && log[k].queue == q ==>
              log[k].reply.Rejected?
    ensures n >= 0 ==>
              && log[n].ESubmit? && log[n].context == c && log[n].queue == q
              && log[n].reply == Accepted(Latest(log, c, q))
  {
    if log == [] {
      n := -1;
    } else {
      var e := log[|log| - 1];
      if e.ESubmit? && e.context == c && e.queue == q && e.reply.Accepted? {
        n := |log| - 1;
      } else {
        n := LatestIsLogged(log[..|log| - 1], c, q);
      }
    }
  }

  lemma {:induction false} LatestNeverFalls(log: seq<Event>, i: nat, j: nat, c: Context, q: Queue)
    requires KernelIncreasing(log) && i <= j <= |log|
    ensures Latest(log[..i], c, q) <= Latest(log[..j], c, q)
    decreases j
  {
    if i < j {
      LatestNeverFalls(log, i, j - 1, c, q);
      assert log[..j][..j - 1] == log[..j - 1];
      var n := LatestIsLogged(log[..j - 1], c, q);
    }
  }

  // So along a run that the kernel numbers upwards, last_seq never decreases.
  lemma LastSeqNeverFalls(states: seq<State>, ops: seq<Op>, i: nat, j: nat, c: Context, q: Queue)
    requires Run(states, ops) && i <= j < |states|
    requires KernelIncreasing(states[j].log)
    requires c in states[i].ctxs && c in states[j].ctxs
    ensures states[i].ctxs[c].Seq(q) <= states[j].ctxs[c].Seq(q)
  {
    RunSafe(states, ops);
    LogGrows(states, ops, i, j);
    var log := states[j].log;
    assert states[i].log == log[..|states[i].log|] && log == log[..|log|];
    LatestNeverFalls(log, |states[i].log|, |log|, c, q);
  }

  lemma {:induction false} LogGrows(states: seq<State>, ops: seq<Op>, i: nat, j: nat)
    requires Run(states, ops) && i <= j < |states|
    ensures states[i].log <= states[j].log
    decreases j
  {
    if i < j {
      LogGrows(states, ops, i, j - 1);
      assert states[j - 1 + 1] == Next(states[j - 1], ops[j - 1]);
    }
  }

  // ---- Every wait is honoured by the next submission on its queue ----

  ghost function FirstSubmit(log: seq<Event>, k: nat, c: Context, q: Queue): (m: nat)
    requires k <= |log|
    ensures k <= m <= |log|
    ensures m < |log| ==> log[m].ESubmit? && log[m].context == c && log[m].queue == q
    ensures forall i :: k <= i < m && log[i].ESubmit? ==> log[i].context != c || log[i].queue != q
    decreases |log| - k
  {
    if k == |log| || (log[k].ESubmit? && log[k].context == c && log[k].queue == q) then k
    else FirstSubmit(log, k + 1, c, q)
  }

  ghost predicate Honoured(s: State, k: nat)
    requires k < |s.log| && s.log[k].EWait?
  {
    var e := s.log[k];
    var m := FirstSubmit(s.log, k, e.context, e.queue);
    if m < |s.log| then e.sem in s.log[m].consumed
    else e.context in s.ctxs ==> e.sem in s.ctxs[e.context].List(e.queue)
  }

  ghost predicate AllHonoured(s: State) {
    && (forall k :: 0 <= k < |s.log| ==> s.log[k].context in s.ever)
    && forall k :: 0 <= k < |s.log| && s.log[k].EWait? ==> Honoured(s, k)
  }

  lemma {:induction false} FirstSubmitAppended(log: seq<Event>, e: Event, k: nat, c: Context, q: Queue)
    requires k <= |log|
    ensures var m := FirstSubmit(log, k, c, q);
            FirstSubmit(log + [e], k, c, q) ==
            if m < |log| || (e.ESubmit? && e.context == c && e.queue == q) then m else |log| + 1
    decreases |log| - k
  {
    if k < |log| && !(log[k].ESubmit? && log[k].context == c && log[k].queue == q) {
      FirstSubmitAppended(log, e, k + 1, c, q);
    }
  }

  // Steps that add no event.
  lemma QuietHonoured(s: State, op: Op, k: nat)
    requires Allowed(s, op) && Next(s, op).log == s.log
    requires k < |s.log| && s.log[k].EWait? && s.log[k].context in s.ever && Honoured(s, k)
    ensures Honoured(Next(s, op), k)
  {
  }

  lemma HonouredKept(s: State, op: Op, k: nat)
    requires Allowed(s, op) && k < |s.log| && s.log[k].EWait? && s.log[k].context in s.ever
    requires Honoured(s, k)
    ensures s.log <= Next(s, op).log && Honoured(Next(s, op), k)
  {
    var t, w := Next(s, op), s.log[k];
    if t.log == s.log {
      QuietHonoured(s, op, k);
    } else {
      var e := t.log[|s.log|];
      assert t.log == s.log + [e];
      FirstSubmitAppended(s.log, e, k, w.context, w.queue);
      if op.Submit? {
        SubmitHasShape(s, op.ctx, op.queue, op.ibs, op.reply);
        assert op.ctx == w.context && op.queue == w.queue ==> e.consumed == s.ctxs[w.context].List(w.queue);
      }
    }
  }

  lemma NewWaitHonoured(s: State, op: Op)
    requires Allowed(s, op) && |Next(s, op).log| > |s.log| && Next(s, op).log[|s.log|].EWait?
    ensures Honoured(Next(s, op), |s.log|)
  {
  }

  lemma NextHonoured(s: State, op: Op)
    requires Safe(s) && AllHonoured(s) && Allowed(s, op)
    ensures AllHonoured(Next(s, op))
  {
    var t := Next(s, op);
    forall k | 0 <= k < |t.log| ensures t.log[k].context in t.ever && (t.log[k].EWait? ==> Honoured(t, k)) {
      if k == |s.log| {
        if t.log[k].EWait? { NewWaitHonoured(s, op); }
      } else if s.log[k].EWait? {
        HonouredKept(s, op, k);
      }
    }
  }

  lemma {:induction false} EveryWaitHonoured(states: seq<State>, ops: seq<Op>)
    requires Run(states, ops)
    ensures forall i :: 0 <= i < |states| ==> AllHonoured(states[i])
  {
    RunSafe(states, ops);
    for i := 0 to |ops|
      invariant forall k :: 0 <= k <= i ==> AllHonoured(states[k])
    {
      NextHonoured(states[i], ops[i]);
    }
  }
}
