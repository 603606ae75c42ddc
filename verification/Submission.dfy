// The command-submission calls on real objects (amdgpu/amdgpu_cs.c). Each is proved to be
// the step of the state machine it is named after.
module Submissions {
  import opened UtilMath
  import opened Semaphores
  import opened Wrappers

  // ---- What a submission looks like ----

  const CHUNK_ID_IB := 1
  const CHUNK_ID_FENCE := 2
  const CHUNK_ID_DEPENDENCIES := 3
  const IB_DWORDS := 8     // sizeof(struct drm_amdgpu_cs_chunk_ib) / 4
  const FENCE_DWORDS := 2  // sizeof(struct drm_amdgpu_cs_chunk_fence) / 4
  const DEP_DWORDS := 6    // sizeof(struct drm_amdgpu_cs_chunk_dep) / 4

  datatype Ib = Ib(mcAddress: int, size: int, flags: int)
  datatype UserFence = NoUserFence | UserFence(boHandle: int, offset: int)
  datatype UserDep = UserDep(context: Context, queue: Queue, fence: int)

  datatype Request = Request(ipType: int, ipInstance: int, ring: int, ibs: seq<Ib>,
                             fence: UserFence, dependencies: seq<UserDep>, boList: int) {
    function Target(): Queue { Queue(ipType, ipInstance, ring) }
  }

  datatype ChunkData =
    | IbData(vaStart: int, ibBytes: int, queue: Queue, flags: int)
    | FenceData(handle: int, offset: int)

  // Where a chunk's data address leads: an element of chunk_data, or one of the two
  // dependency arrays.
  datatype ChunkRef = DataAt(index: nat) | UserDeps | SemDeps

  datatype Chunk = Chunk(id: int, lengthDw: int, data: ChunkRef)

  // What the kernel reads through a chunk.
  datatype Content = OfData(data: ChunkData) | OfDeps(deps: seq<Dep>)
  datatype SentChunk = SentChunk(id: int, lengthDw: int, content: Content)
  datatype Sent = Nothing | Sent(ctxId: int, boList: int, chunks: seq<SentChunk>)

  function Word(x: int): int { Wrap(x, TWO_TO_32) }

  function IbDataOf(req: Request, ib: Ib): ChunkData {
    IbData(ib.mcAddress, Word(ib.size * 4), req.Target(), ib.flags)
  }

  function IbChunks(req: Request): seq<SentChunk> {
    seq(|req.ibs|, i requires 0 <= i < |req.ibs| =>
      SentChunk(CHUNK_ID_IB, IB_DWORDS, OfData(IbDataOf(req, req.ibs[i]))))
  }

  function UserDepsOf(req: Request): seq<Dep> {
    seq(|req.dependencies|, i requires 0 <= i < |req.dependencies| =>
      Dep(req.dependencies[i].queue, req.dependencies[i].context.id, req.dependencies[i].fence))
  }

  function FenceChunks(fence: UserFence): seq<SentChunk> {
    match fence
    case NoUserFence => []
    case UserFence(h, offset) => [SentChunk(CHUNK_ID_FENCE, FENCE_DWORDS, OfData(FenceData(h, Word(offset * 8))))]
  }

  function DepChunks(deps: seq<Dep>): seq<SentChunk> {
    if deps == [] then [] else [SentChunk(CHUNK_ID_DEPENDENCIES, Word(DEP_DWORDS * |deps|), OfDeps(deps))]
  }

  // The promised order: the IBs, then whichever of the fence, the caller's dependencies
  // and the semaphores' dependencies there are.
  function Layout(req: Request, semDeps: seq<Dep>): seq<SentChunk> {
    IbChunks(req) + FenceChunks(req.fence) + DepChunks(UserDepsOf(req)) + DepChunks(semDeps)
  }

  // The kernel following the addresses in the chunk array.
  function Read(c: Chunk, data: seq<ChunkData>, userDeps: seq<Dep>, semDeps: seq<Dep>): SentChunk
    requires c.data.DataAt? ==> c.data.index < |data|
  {
    SentChunk(c.id, c.lengthDw,
              match c.data
              case DataAt(i) => OfData(data[i])
              case UserDeps => OfDeps(userDeps)
              case SemDeps => OfDeps(semDeps))
  }

  // ---- The same, field by field ----

  ghost predicate IbCarried(c: SentChunk, req: Request, ib: Ib) {
    && c.id == 1 && c.lengthDw == 8 && c.content.OfData? && c.content.data.IbData?
    && var data := c.content.data;
       && data.vaStart == ib.mcAddress && data.flags == ib.flags
       && data.queue.ipType == req.ipType && data.queue.ipInstance == req.ipInstance && data.queue.ring == req.ring
       && data.ibBytes == ib.size * 4 % TWO_TO_32
       && (0 <= ib.size * 4 < TWO_TO_32 ==> data.ibBytes == ib.size * 4)
  }

  ghost predicate FenceCarried(c: SentChunk, handle: int, offset: int) {
    && c.id == 2 && c.lengthDw == 2 && c.content.OfData? && c.content.data.FenceData?
    && c.content.data.handle == handle && c.content.data.offset == offset * 8 % TWO_TO_32
  }

  ghost predicate DepsCarried(c: SentChunk, count: nat) {
    && c.id == 3 && c.lengthDw == 6 * count % TWO_TO_32
    && c.content.OfDeps? && |c.content.deps| == count
  }

  // One chunk for each IB, then whichever there are of the fence, the caller's dependencies and
  // those of the semaphores, whose signals are given.
  ghost predicate Carried(chunks: seq<SentChunk>, req: Request, signals: seq<Fence>) {
    var afterIbs := |req.ibs|;
    var afterFence := afterIbs + if req.fence.UserFence? then 1 else 0;
    var afterDeps := afterFence + if req.dependencies != [] then 1 else 0;
    && |chunks| == afterDeps + (if signals != [] then 1 else 0)
    && (forall k :: 0 <= k < |req.ibs| ==> IbCarried(chunks[k], req, req.ibs[k]))
    && (req.fence.UserFence? ==> FenceCarried(chunks[afterIbs], req.fence.boHandle, req.fence.offset))
    && (req.dependencies != [] ==>
          && DepsCarried(chunks[afterFence], |req.dependencies|)
          && forall j :: 0 <= j < |req.dependencies| ==>
               var (d, want) := (chunks[afterFence].content.deps[j], req.dependencies[j]);
               d.queue == want.queue && d.ctxId == want.context.id && d.handle == want.fence)
    && (signals != [] ==>
          && DepsCarried(chunks[afterDeps], |signals|)
          && forall j :: 0 <= j < |signals| ==>
               var (d, signal) := (chunks[afterDeps].content.deps[j], signals[j]);
               signal.Signalled? && d.queue == signal.queue && d.ctxId == signal.context.id && d.handle == signal.seqNo)
  }

  lemma LayoutCarried(req: Request, semDeps: seq<Dep>, signals: seq<Fence>)
    requires |semDeps| == |signals|
    requires forall j :: 0 <= j < |signals| ==> signals[j].Signalled? && semDeps[j] == DepOf(signals[j])
    ensures Carried(Layout(req, semDeps), req, signals)
  {
    var chunks := Layout(req, semDeps);
    forall k | 0 <= k < |req.ibs| ensures IbCarried(chunks[k], req, req.ibs[k]) {
      assert chunks[k] == IbChunks(req)[k];
    }
    var rest := FenceChunks(req.fence) + DepChunks(UserDepsOf(req)) + DepChunks(semDeps);
    assert chunks == IbChunks(req) + rest;
    assert forall k :: 0 <= k < |rest| ==> chunks[|req.ibs| + k] == rest[k];
  }

  // A request with IBs: what the kernel is given, its answer passed on, the number kept if it
  // accepts, and either way the queue's list emptied and its semaphores released.
  ghost predicate Submitted(before: State, after: State, ctx: Context, q: Queue, req: Request, reply: Reply,
                            r: Errno, seqNo: int, sent: Sent)
    requires ctx in before.ctxs && ctx in after.ctxs
  {
    var (was, now) := (before.ctxs[ctx], after.ctxs[ctx]);
    var xs := if q in was.semList then was.semList[q] else [];
    && (forall x :: x in xs ==> x in before.sems)
    && sent.Sent? && sent.ctxId == ctx.id && sent.boList == req.boList
    && Carried(sent.chunks, req, seq(|xs|, j requires 0 <= j < |xs| => before.sems[xs[j]].fence))
    && (match reply
        case Accepted(n) => r == Success && seqNo == n && now.lastSeq == was.lastSeq[q := n]
        case Rejected(code) => r == KernelError(code) && now.lastSeq == was.lastSeq)
    && now.semList.Keys == was.semList.Keys && (q in now.semList ==> now.semList[q] == [])
    && (forall p :: p in was.semList && p != q ==> now.semList[p] == was.semList[p])
    && (forall x :: x in before.sems ==>
          if x in xs then
            && (x in after.sems <==> before.sems[x].refcount > 1)
            && (x in after.sems ==>
                  after.sems[x].refcount == before.sems[x].refcount - 1 && after.sems[x].fence == NoFence)
          else x in after.sems && after.sems[x] == before.sems[x])
  }

  lemma StepSubmitted(before: State, ctx: Context, q: Queue, req: Request, reply: Reply,
                      r: Errno, seqNo: int, sent: Sent)
    requires CountsRight(before) && ListsRight(before) && ctx in before.ctxs && req.ibs != [] && !BadQueue(q)
    requires Allowed(before, Submit(ctx, q, |req.ibs|, reply))
    requires sent == Sent(ctx.id, req.boList, Layout(req, Deps(before, before.ctxs[ctx].List(q))))
    requires match reply
             case Accepted(n) => r == Success && seqNo == n
             case Rejected(code) => r == KernelError(code)
    ensures Submitted(before, Next(before, Submit(ctx, q, |req.ibs|, reply)), ctx, q, req, reply, r, seqNo, sent)
  {
    var xs := before.ctxs[ctx].List(q);
    ListedAreSignalled(before, ctx, q);
    assert forall j :: 0 <= j < |xs| ==> xs[j] in Elems(xs);
    LayoutCarried(req, Deps(before, xs), seq(|xs|, j requires 0 <= j < |xs| => before.sems[xs[j]].fence));
  }

  // The objects the library has handed out, and the history: kept for specification only.
  class Library {
    ghost var sems: set<Semaphore>
    ghost var ctxs: set<Context>
    ghost var ever: set<Context>
    ghost var log: seq<Event>

    ghost function SemViews(): map<Semaphore, SemView>
      reads this, sems
    {
      map x | x in sems :: SemView(x.refcount, x.fence, x.held, x.place)
    }

    ghost function CtxViews(): map<Context, CtxView>
      reads this, ctxs
    {
      map c | c in ctxs :: CtxView(c.lastSeq, c.semList)
    }

    ghost function View(): State
      reads this, sems, ctxs
    {
      State(SemViews(), CtxViews(), ever, log)
    }

    constructor ()
      ensures View() == EMPTY_STATE
    {
      sems, ctxs, ever, log := {}, {}, {}, [];
    }

    // amdgpu_cs_create_semaphore
    method CreateSemaphore(out: bool, callocOk: bool) returns (r: Errno, sem: Semaphore?)
      modifies this`sems
      ensures r == if !out then EINVAL else if !callocOk then ENOMEM else Success
      ensures r == Success <==> sem != null
      ensures r != Success ==> View() == old(View())
      ensures r == Success ==> fresh(sem) && sem !in old(sems) && sem.refcount == 1 && sem.fence == NoFence
      ensures r == Success ==> Allowed(old(View()), CreateSem(sem)) && View() == Next(old(View()), CreateSem(sem))
    {
      if !out {
        return EINVAL, null;
      }
      if !callocOk {
        return ENOMEM, null;
      }
      sem := new Semaphore();
      sems := sems + {sem};
      r := Success;
    }

    // amdgpu_cs_signal_semaphore
    method SignalSemaphore(ctx: Context?, ipType: int, ipInstance: int, ring: int, sem: Semaphore?) returns (r: Errno)
      requires Allowed(View(), Signal(ctx, Queue(ipType, ipInstance, ring), sem))
      modifies this`log, sem
      ensures View() == Next(old(View()), Signal(ctx, Queue(ipType, ipInstance, ring), sem))
      ensures r == if && ctx != null && sem != null && ipType < HW_IP_NUM && ring < CS_MAX_RINGS
                      && old(sem.fence) == NoFence
                   then Success else EINVAL
      ensures r != Success ==> View() == old(View())
      ensures r == Success ==>
                && sem.refcount == old(sem.refcount) + 1 && sem.fence.Signalled?
                && sem.fence.context == ctx && sem.fence.queue == Queue(ipType, ipInstance, ring)
                && sem.fence.seqNo == if sem.fence.queue in ctx.lastSeq then ctx.lastSeq[sem.fence.queue] else 0
    {
      if ctx == null || sem == null {
        return EINVAL;
      }
      if ipType >= HW_IP_NUM {
        return EINVAL;
      }
      if ring >= CS_MAX_RINGS {
        return EINVAL;
      }
      if sem.fence != NoFence {
        return EINVAL;
      }
      var q := Queue(ipType, ipInstance, ring);
      sem.fence := Signalled(ctx, q, if q in ctx.lastSeq then ctx.lastSeq[q] else 0);
      sem.refcount := sem.refcount + 1;
      log := log + [ESignal(sem, ctx, q)];
      assert SemViews() == Next(old(View()), Signal(ctx, q, sem)).sems;
      assert CtxViews() == Next(old(View()), Signal(ctx, q, sem)).ctxs;
      return Success;
    }

    // amdgpu_cs_wait_semaphore
    method WaitSemaphore(ctx: Context?, ipType: int, ipInstance: int, ring: int, sem: Semaphore?) returns (r: Errno)
      requires Allowed(View(), Wait(ctx, Queue(ipType, ipInstance, ring), sem))
      modifies this`log, ctx, sem
      ensures View() == Next(old(View()), Wait(ctx, Queue(ipType, ipInstance, ring), sem))
      ensures r == if && ctx != null && sem != null && ipType < HW_IP_NUM && ring < CS_MAX_RINGS
                      && old(sem.fence) != NoFence
                   then Success else EINVAL
      ensures r != Success ==> View() == old(View())
      ensures r == Success ==>
                var (q, front: Semaphore) := (Queue(ipType, ipInstance, ring), sem);
                var waiting := if q in old(ctx.semList) then old(ctx.semList)[q] else [];
                ctx.semList == old(ctx.semList)[q := [front] + waiting]
    {
      if ctx == null || sem == null {
        return EINVAL;
      }
      if ipType >= HW_IP_NUM {
        return EINVAL;
      }
      if ring >= CS_MAX_RINGS {
        return EINVAL;
      }
      if sem.fence == NoFence {
        return EINVAL;
      }
      Enqueue(ctx, Queue(ipType, ipInstance, ring), sem);
      return Success;
    }

    // list_add at the front of the queue's wait list.
    method Enqueue(ctx: Context, q: Queue, sem: Semaphore)
      requires Allowed(View(), Wait(ctx, q, sem)) && CanWait(View(), ctx, q, sem)
      modifies this`log, ctx, sem
      ensures View() == Next(old(View()), Wait(ctx, q, sem))
      ensures ctx.semList == old(ctx.semList)[q := [sem] + if q in old(ctx.semList) then old(ctx.semList)[q] else []]
    {
      ctx.semList := ctx.semList[q := [sem] + ListOf(ctx, q)];
      sem.place := At(ctx, q);
      log := log + [EWait(sem, ctx, q)];
      assert SemViews() == Next(old(View()), Wait(ctx, q, sem)).sems;
      assert CtxViews() == Next(old(View()), Wait(ctx, q, sem)).ctxs;
    }

    static function ListOf(ctx: Context, q: Queue): seq<Semaphore>
      reads ctx
    {
      if q in ctx.semList then ctx.semList[q] else []
    }

    // amdgpu_cs_reset_sem
    method ResetSem(sem: Semaphore) returns (r: Errno)
      modifies sem`fence, sem`place
      ensures sem.fence == NoFence && sem.place == Nowhere
      ensures r == if old(sem.fence) == NoFence then EINVAL else Success
    {
      sem.place := Nowhere;
      if sem.fence == NoFence {
        return EINVAL;
      }
      sem.fence := NoFence;
      return Success;
    }

    // amdgpu_cs_unreference_sem: the last reference frees the semaphore.
    method UnreferenceSem(sem: Semaphore)
      requires sem in sems && sem.refcount > 0
      modifies this`sems, sem`refcount
      ensures sem.refcount == old(sem.refcount) - 1
      ensures sems == if old(sem.refcount) == 1 then old(sems) - {sem} else old(sems)
    {
      sem.refcount := sem.refcount - 1;
      if sem.refcount == 0 {
        sems := sems - {sem};
      }
    }

    // amdgpu_cs_destroy_semaphore
    method DestroySemaphore(sem: Semaphore?) returns (r: Errno)
      requires CountsRight(View()) && Allowed(View(), Destroy(sem))
      modifies this`sems, sem
      ensures View() == Next(old(View()), Destroy(sem))
      ensures r == if sem == null then EINVAL else Success
      ensures sem != null ==>
                && sem.refcount == old(sem.refcount) - 1 && sem.fence == old(sem.fence)
                && sems == if old(sem.refcount) == 1 then old(sems) - {sem} else old(sems)
    {
      if sem == null {
        return EINVAL;
      }
      assert View().sems[sem].refcount > 0;
      UnreferenceSem(sem);
      sem.held := false;
      assert CtxViews() == old(CtxViews());
      assert SemViews() == Next(old(View()), Destroy(sem)).sems;
      return Success;
    }

    // reset_sem followed by unreference_sem, as both consumers of a wait list do.
    method ReleaseSem(sem: Semaphore)
      requires sem in sems && sem.refcount > 0
      modifies this`sems, sem
      ensures SemViews() == Released(old(SemViews()), {sem})
      ensures sems <= old(sems)
    {
      var _ := ResetSem(sem);
      UnreferenceSem(sem);
    }

    // A list a walk may release: its entries are allocated, counted and distinct.
    ghost predicate Releasable(xs: seq<Semaphore>)
      reads this, sems
    {
      && (forall i :: 0 <= i < |xs| ==> xs[i] in sems && xs[i].refcount > 0)
      && (forall i, j :: 0 <= i < j < |xs| ==> xs[i] != xs[j])
    }

    // The first i entries of the list xs have been unlinked and released.
    ghost predicate DrainedUpTo(ctx: Context, q: Queue, xs: seq<Semaphore>, i: nat,
                                before: map<Semaphore, SemView>, lists: map<Queue, seq<Semaphore>>)
      requires i <= |xs|
      reads this, sems, ctx
    {
      && SemViews() == Released(before, Elems(xs[..i]))
      && ctx.semList == if i == 0 then lists else lists[q := xs[i..]]
    }

    // list_del, reset_sem and unreference_sem on the entry at the front of what is left.
    method ReleaseFront(ctx: Context, q: Queue, xs: seq<Semaphore>, i: nat,
                        ghost before: map<Semaphore, SemView>, ghost lists: map<Queue, seq<Semaphore>>)
      requires i < |xs| && DrainedUpTo(ctx, q, xs, i, before, lists)
      requires xs[i] in before && before[xs[i]].refcount > 0
      requires forall a, b :: 0 <= a < b < |xs| ==> xs[a] != xs[b]
      modifies this`sems, ctx`semList, xs[i]
      ensures sems <= old(sems) && DrainedUpTo(ctx, q, xs, i + 1, before, lists)
    {
      StillListed(before, xs, i);
      assert xs[i] in SemViews();
      ctx.semList := ctx.semList[q := xs[i + 1..]];
      ReleaseSem(xs[i]);
      ReleasedMore(before, Elems(xs[..i]), {xs[i]});
      assert Elems(xs[..i + 1]) == Elems(xs[..i]) + {xs[i]};
    }

    // Every entry of the queue's list has been released, once, and the list is empty.
    twostate predicate ListReleased(ctx: Context, q: Queue)
      reads this, sems, ctx
    {
      && sems <= old(sems) && SemViews() == Released(old(SemViews()), Elems(old(ListOf(ctx, q))))
      && ctx.semList == if old(ListOf(ctx, q)) == [] then old(ctx.semList) else old(ctx.semList)[q := []]
    }

    // The list walk of ctx_free, saving the next entry before the current one is released.
    method DrainList(ctx: Context, q: Queue)
      requires ctx in ctxs && Releasable(ListOf(ctx, q))
      modifies this`sems, ctx`semList, sems
      ensures ListReleased(ctx, q)
    {
      var xs := ListOf(ctx, q);
      ghost var before, lists := SemViews(), ctx.semList;
      assert Released(before, Elems([])) == before;
      for i := 0 to |xs|
        invariant sems <= old(sems) && DrainedUpTo(ctx, q, xs, i, before, lists)
      {
        assert before[xs[i]].refcount > 0;
        ReleaseFront(ctx, q, xs, i, before, lists);
      }
      assert xs[..|xs|] == xs && xs[|xs|..] == [];
    }

    // Releasing the first i entries of a list leaves the next one as it was.
    lemma StillListed(m: map<Semaphore, SemView>, xs: seq<Semaphore>, i: nat)
      requires i < |xs| && xs[i] in m
      requires forall a, b :: 0 <= a < b < |xs| ==> xs[a] != xs[b]
      ensures xs[i] !in Elems(xs[..i])
      ensures xs[i] in Released(m, Elems(xs[..i])) && Released(m, Elems(xs[..i]))[xs[i]] == m[xs[i]]
    {
    }

    // amdgpu_cs_ctx_create2. The kernel's reply is the id of the new context, or an error.
    method CreateContext(args: bool, callocOk: bool, id: Option<int>, code: int) returns (r: Errno, ctx: Context?)
      requires ctxs <= ever
      modifies this`ctxs, this`ever
      ensures r == if !args then EINVAL else if !callocOk then ENOMEM
                   else if id.None? then KernelError(code) else Success
      ensures r == Success <==> ctx != null
      ensures r != Success ==> View() == old(View())
      ensures r == Success ==> fresh(ctx) && ctx.id == id.value && ctx.lastSeq == map[] && ctx.semList == map[]
      ensures r == Success ==> Allowed(old(View()), CreateCtx(ctx)) && View() == Next(old(View()), CreateCtx(ctx))
    {
      if !args {
        return EINVAL, null;
      }
      if !callocOk {
        return ENOMEM, null;
      }
      if id.None? {
        return KernelError(code), null;
      }
      ctx := new Context(id.value);
      ctxs := ctxs + {ctx};
      ever := ever + {ctx};
      assert SemViews() == old(SemViews());
      assert CtxViews() == old(CtxViews())[ctx := CtxView(map[], map[])];
      r := Success;
    }

    // Where the three loops of ctx_free meet a queue.
    ghost function Rank(q: Queue): int { q.ipType * CS_MAX_RINGS + q.ring }

    ghost function QueuedBelow(lists: map<Queue, seq<Semaphore>>, n: int): set<Semaphore> {
      set q, x | q in lists && Rank(q) < n && x in lists[q] :: x
    }

    ghost predicate FreedUpTo(ctx: Context, before: State, n: int)
      requires ctx in before.ctxs
      reads this, sems, ctx
    {
      var lists := before.ctxs[ctx].semList;
      && SemViews() == Released(before.sems, QueuedBelow(lists, n))
      && (forall q :: q in lists && Rank(q) >= n ==> q in ctx.semList && ctx.semList[q] == lists[q])
      && (forall q :: q !in lists ==> q !in ctx.semList)
    }

    // What releasing a semaphore's signal means for the object itself.
    twostate predicate LetGo(x: Semaphore)
      reads this, x
    {
      && (x in sems <==> old(x.refcount) > 1)
      && (x in sems ==> x.refcount == old(x.refcount) - 1 && x.fence == NoFence)
    }

    twostate predicate LeftAlone(x: Semaphore)
      reads this, x
    {
      x in sems && x.refcount == old(x.refcount) && x.fence == old(x.fence)
    }

    twostate lemma ReleasedMeans(done: set<Semaphore>)
      requires done <= old(sems) && SemViews() == Released(old(SemViews()), done)
      requires forall x :: x in old(sems) ==> old(x.refcount) > 0
      ensures forall x :: x in old(sems) ==> if x in done then LetGo(x) else LeftAlone(x)
    {
      assert SemViews().Keys == sems && old(SemViews()).Keys == old(sems);
      forall x | x in old(sems)
        ensures if x in done then LetGo(x) else LeftAlone(x)
      {
        assert old(SemViews())[x].refcount == old(x.refcount) && old(SemViews())[x].fence == old(x.fence);
        if x in sems {
          assert SemViews()[x].refcount == x.refcount && SemViews()[x].fence == x.fence;
        }
      }
    }

    // amdgpu_cs_ctx_free: every semaphore still waiting on the context is released.
    method FreeContext(ctx: Context?, kernelCode: int) returns (r: Errno)
      requires ctx != null ==> CountsRight(View()) && ListsRight(View()) && Allowed(View(), FreeCtx(ctx))
      modifies this`sems, this`ctxs, ctx, sems
      ensures ctx == null ==> r == EINVAL && View() == old(View())
      ensures ctx != null ==> View() == Next(old(View()), FreeCtx(ctx))
      ensures ctx != null ==> ctx !in ctxs && forall x :: x in old(sems) ==>
                if exists q :: q in old(ctx.semList) && x in old(ctx.semList)[q] then LetGo(x) else LeftAlone(x)
      ensures ctx != null ==> r == if kernelCode == 0 then Success else KernelError(kernelCode)
    {
      if ctx == null {
        return EINVAL;
      }
      ghost var queued := AllQueued(CtxViews()[ctx]);
      QueuedAreSignalled(View(), ctx);
      assert forall x :: x in sems ==> View().sems[x].refcount > 0;
      FreeLive(ctx);
      ReleasedMeans(queued);
      r := if kernelCode == 0 then Success else KernelError(kernelCode);
    }

    method FreeLive(ctx: Context)
      requires ctx in ctxs && CountsRight(View()) && ListsRight(View())
      modifies this`sems, this`ctxs, ctx, sems
      ensures SemViews() == Released(old(SemViews()), AllQueued(old(CtxViews())[ctx]))
      ensures CtxViews() == old(CtxViews()) - {ctx}
    {
      ghost var before := View();
      FreeAllQueues(ctx, before);
      ctxs := ctxs - {ctx};
    }

    method FreeAllQueues(ctx: Context, ghost before: State)
      requires ctx in ctxs && ctx in before.ctxs
      requires before.sems == SemViews() && before.ctxs[ctx] == CtxView(ctx.lastSeq, ctx.semList)
      requires CountsRight(before) && ListsRight(before)
      modifies this`sems, ctx`semList, before.sems.Keys
      ensures SemViews() == Released(before.sems, AllQueued(before.ctxs[ctx]))
    {
      RanksCoverQueues(before, ctx);
      assert Released(before.sems, {}) == before.sems;
      ghost var n := 0;
      for i := 0 to HW_IP_NUM
        invariant n == i * CS_MAX_RINGS && FreedUpTo(ctx, before, n)
      {
        FreeRings(ctx, i, before, n);
        n := n + CS_MAX_RINGS;
      }
    }

    method FreeRings(ctx: Context, i: nat, ghost before: State, ghost start: int)
      requires i < HW_IP_NUM && ctx in ctxs && ctx in before.ctxs
      requires CountsRight(before) && ListsRight(before)
      requires start == i * CS_MAX_RINGS && FreedUpTo(ctx, before, start)
      modifies this`sems, ctx`semList, before.sems.Keys
      ensures FreedUpTo(ctx, before, start + CS_MAX_RINGS)
    {
      ghost var n := start;
      var k := 0;
      while k < CS_MAX_RINGS
        invariant 0 <= k <= CS_MAX_RINGS && n == start + k && FreedUpTo(ctx, before, n)
      {
        FreeOneQueue(ctx, Queue(i, 0, k), before, n);
        n := n + 1;
        k := k + 1;
      }
      assert n == start + CS_MAX_RINGS;
    }

    method FreeOneQueue(ctx: Context, q: Queue, ghost before: State, ghost n: int)
      requires q.Valid() && n == Rank(q) && ctx in ctxs && ctx in before.ctxs
      requires CountsRight(before) && ListsRight(before)
      requires FreedUpTo(ctx, before, n)
      modifies this`sems, ctx`semList, before.sems.Keys
      ensures FreedUpTo(ctx, before, n + 1)
    {
      ghost var lists := before.ctxs[ctx].semList;
      ghost var done := QueuedBelow(lists, n);
      ghost var xs := before.ctxs[ctx].List(q);
      assert q in lists <==> q in ctx.semList;
      assert ListOf(ctx, q) == xs;
      OthersUntouched(before, ctx, q, n);
      assert sems == SemViews().Keys;
      DrainList(ctx, q);
      ReleasedMore(before.sems, done, Elems(xs));
      OneRankMore(before, ctx, q, n);
      forall p | p in lists && Rank(p) >= n + 1 ensures p in ctx.semList && ctx.semList[p] == lists[p] {
        assert p != q;
      }
    }

    lemma OneRankMore(before: State, ctx: Context, q: Queue, n: int)
      requires n == Rank(q) && q.Valid() && ctx in before.ctxs && ListsRight(before)
      ensures var v := before.ctxs[ctx];
              QueuedBelow(v.semList, n + 1) == QueuedBelow(v.semList, n) + Elems(v.List(q))
    {
      var v := before.ctxs[ctx];
      forall p | p in v.semList && Rank(p) == n ensures p == q {
        assert p.Valid();
      }
      forall x | x in Elems(v.List(q)) ensures x in QueuedBelow(v.semList, n + 1) {
        assert q in v.semList && Rank(q) < Rank(q) + 1 && x in v.semList[q];
      }
    }

    lemma RanksCoverQueues(before: State, ctx: Context)
      requires ctx in before.ctxs && ListsRight(before)
      ensures var lists := before.ctxs[ctx].semList;
              QueuedBelow(lists, 0) == {} && QueuedBelow(lists, HW_IP_NUM * CS_MAX_RINGS) == AllQueued(before.ctxs[ctx])
    {
      var v := before.ctxs[ctx];
      forall q | q in v.semList ensures q.Valid() {
        assert q in before.ctxs[ctx].semList;
      }
      forall x | x in AllQueued(v) ensures x in QueuedBelow(v.semList, HW_IP_NUM * CS_MAX_RINGS) {
        var q :| q in v.semList && x in v.semList[q];
        assert Rank(q) < HW_IP_NUM * CS_MAX_RINGS;
      }
    }

    lemma OthersUntouched(before: State, ctx: Context, q: Queue, n: int)
      requires n == Rank(q) && q.Valid() && ctx in before.ctxs && CountsRight(before) && ListsRight(before)
      requires SemViews() == Released(before.sems, QueuedBelow(before.ctxs[ctx].semList, n))
      ensures QueuedBelow(before.ctxs[ctx].semList, n) !! Elems(before.ctxs[ctx].List(q))
      ensures Releasable(before.ctxs[ctx].List(q))
    {
      var v := before.ctxs[ctx];
      forall p, x | p in v.semList && Rank(p) < n && x in v.semList[p]
        ensures x !in v.List(q)
      {
        assert x in v.List(p);
      }
      forall x | x in Elems(v.List(q))
        ensures x in SemViews() && SemViews()[x] == before.sems[x] && before.sems[x].refcount > 0
      {
      }
    }

    // The count loop of submit_one over a wait list.
    method CountList(ctx: Context, q: Queue) returns (n: nat)
      ensures n == |ListOf(ctx, q)|
    {
      n := 0;
      var xs := ListOf(ctx, q);
      while n < |xs|
        invariant n <= |xs|
      {
        n := n + 1;
      }
    }

    // A list that can be turned into dependencies: distinct, counted, signalled for a live context.
    ghost predicate Drainable(m: map<Semaphore, SemView>, live: set<Context>, xs: seq<Semaphore>) {
      && (forall i :: 0 <= i < |xs| ==>
            xs[i] in m && m[xs[i]].refcount > 0 && m[xs[i]].fence != NoFence && m[xs[i]].fence.context in live)
      && (forall i, j :: 0 <= i < j < |xs| ==> xs[i] != xs[j])
    }

    // Beside that, the first i dependencies are written.
    ghost predicate RecordedUpTo(ctx: Context, q: Queue, xs: seq<Semaphore>, i: nat, deps: array<Dep>, want: seq<Dep>,
                                 before: map<Semaphore, SemView>, lists: map<Queue, seq<Semaphore>>)
      requires i <= |xs|
      reads this, sems, ctx, deps
    {
      && DrainedUpTo(ctx, q, xs, i, before, lists)
      && |xs| == deps.Length == |want| && deps[..i] == want[..i]
    }

    // One pass of submit_one's walk: note the signal as a dependency, then release the semaphore.
    method RecordFront(ctx: Context, q: Queue, xs: seq<Semaphore>, i: nat, deps: array<Dep>, ghost want: seq<Dep>,
                       ghost before: map<Semaphore, SemView>, ghost lists: map<Queue, seq<Semaphore>>)
      requires i < |xs| && RecordedUpTo(ctx, q, xs, i, deps, want, before, lists)
      requires Drainable(before, ctxs, xs) && want[i] == DepOf(before[xs[i]].fence)
      modifies this`sems, ctx`semList, xs[i], deps
      ensures RecordedUpTo(ctx, q, xs, i + 1, deps, want, before, lists)
    {
      StillListed(before, xs, i);
      var sem := xs[i];
      assert sem in SemViews() && SemViews()[sem] == before[sem];
      deps[i] := Dep(sem.fence.queue, sem.fence.context.id, sem.fence.seqNo);
      assert deps[..i + 1] == want[..i + 1] by {
        assert deps[i] == want[i] && deps[..i] == want[..i];
      }
      ReleaseFront(ctx, q, xs, i, before, lists);
    }

    // The walk of submit_one over the whole list.
    method DrainInto(ctx: Context, q: Queue, deps: array<Dep>)
      requires ctx in ctxs && deps.Length == |ListOf(ctx, q)| && Drainable(SemViews(), ctxs, ListOf(ctx, q))
      modifies this`sems, ctx`semList, sems, deps
      ensures ListReleased(ctx, q)
      ensures deps[..] == Deps(old(View()), old(ListOf(ctx, q)))
    {
      var xs := ListOf(ctx, q);
      ghost var before, lists, want := SemViews(), ctx.semList, Deps(View(), xs);
      WalkRecords(ctx, q, xs, deps, want, before, lists);
      assert xs[..|xs|] == xs && xs[|xs|..] == [];
      assert deps[..] == deps[..|xs|] && want == want[..|xs|];
      assert sems == SemViews().Keys;
    }

    method WalkRecords(ctx: Context, q: Queue, xs: seq<Semaphore>, deps: array<Dep>, ghost want: seq<Dep>,
                       ghost before: map<Semaphore, SemView>, ghost lists: map<Queue, seq<Semaphore>>)
      requires ctx in ctxs && xs == ListOf(ctx, q) && deps.Length == |xs| == |want|
      requires before == SemViews() && lists == ctx.semList && Drainable(before, ctxs, xs)
      requires forall i :: 0 <= i < |xs| ==> want[i] == DepOf(before[xs[i]].fence)
      modifies this`sems, ctx`semList, sems, deps
      ensures RecordedUpTo(ctx, q, xs, |xs|, deps, want, before, lists)
    {
      assert Released(before, Elems([])) == before;
      var i := 0;
      while i < |xs|
        invariant 0 <= i <= |xs| && RecordedUpTo(ctx, q, xs, i, deps, want, before, lists)
      {
        assert xs[i] in before;
        RecordFront(ctx, q, xs, i, deps, want, before, lists);
        i := i + 1;
      }
    }

    // The IB loop of submit_one.
    method FillIbs(req: Request, chunks: array<Chunk>, data: array<ChunkData>)
      requires |req.ibs| <= data.Length && |req.ibs| <= chunks.Length
      modifies chunks, data
      ensures forall k :: 0 <= k < |req.ibs| ==>
                chunks[k] == Chunk(CHUNK_ID_IB, IB_DWORDS, DataAt(k)) && data[k] == IbDataOf(req, req.ibs[k])
    {
      for i := 0 to |req.ibs|
        invariant forall k :: 0 <= k < i ==>
                    chunks[k] == Chunk(CHUNK_ID_IB, IB_DWORDS, DataAt(k)) && data[k] == IbDataOf(req, req.ibs[k])
      {
        chunks[i] := Chunk(CHUNK_ID_IB, IB_DWORDS, DataAt(i));
        var ib := req.ibs[i];
        data[i] := IbData(ib.mcAddress, Word(ib.size * 4), Queue(req.ipType, req.ipInstance, req.ring), ib.flags);
      }
    }

    // The loop over the caller's own dependencies.
    method FillDeps(req: Request) returns (deps: array<Dep>)
      ensures fresh(deps) && deps[..] == UserDepsOf(req)
    {
      deps := new Dep[|req.dependencies|](_ => Dep(Queue(0, 0, 0), 0, 0));
      for i := 0 to |req.dependencies|
        invariant forall k :: 0 <= k < i ==> deps[k] == UserDepsOf(req)[k]
      {
        var info := req.dependencies[i];
        deps[i] := Dep(info.queue, info.context.id, info.fence);
      }
    }

    // The chunks of submit_one up to the caller's dependencies, in arrays sized as there.
    method BuildChunks(req: Request)
        returns (chunks: array<Chunk>, data: array<ChunkData>, deps: array<Dep>, numChunks: nat)
      requires req.ibs != [] && |req.ibs| + 3 < TWO_TO_32
      ensures fresh(chunks) && fresh(data) && fresh(deps) && deps[..] == UserDepsOf(req)
      ensures numChunks < chunks.Length
      ensures forall k :: 0 <= k < numChunks ==> (chunks[k].data.DataAt? ==> chunks[k].data.index < data.Length)
      ensures numChunks == |Layout(req, [])|
      ensures forall k, sd :: 0 <= k < numChunks ==> Read(chunks[k], data[..], deps[..], sd) == Layout(req, [])[k]
      ensures forall k :: 0 <= k < numChunks ==> chunks[k].data != SemDeps
    {
      var userFence := req.fence.UserFence?;
      var size := Word(|req.ibs| + (if userFence then 2 else 1) + 1);
      chunks := new Chunk[size](_ => Chunk(0, 0, UserDeps));
      size := Word(|req.ibs| + (if userFence then 1 else 0));
      data := new ChunkData[size](_ => FenceData(0, 0));
      numChunks := |req.ibs|;
      FillIbs(req, chunks, data);
      if userFence {
        var i := numChunks;
        numChunks := numChunks + 1;
        chunks[i] := Chunk(CHUNK_ID_FENCE, FENCE_DWORDS, DataAt(i));
        data[i] := FenceData(req.fence.boHandle, Word(req.fence.offset * 8));
      }
      deps := FillDeps(req);
      if |req.dependencies| > 0 {
        var i := numChunks;
        numChunks := numChunks + 1;
        chunks[i] := Chunk(CHUNK_ID_DEPENDENCIES, Word(DEP_DWORDS * |req.dependencies|), UserDeps);
      }
    }

    // The optional last chunk: the wait list as dependencies. The list is emptied here,
    // before the kernel has answered.
    method AppendSemDeps(ctx: Context, q: Queue, chunks: array<Chunk>, numChunks: nat)
        returns (semDeps: array<Dep>, total: nat)
      requires ctx in ctxs && Drainable(SemViews(), ctxs, ListOf(ctx, q)) && numChunks < chunks.Length
      modifies this`sems, ctx`semList, sems, chunks
      ensures ListReleased(ctx, q)
      ensures fresh(semDeps) && semDeps[..] == Deps(old(View()), old(ListOf(ctx, q)))
      ensures total <= chunks.Length
      ensures chunks[..total] == old(chunks[..numChunks]) +
              if semDeps[..] == [] then []
              else [Chunk(CHUNK_ID_DEPENDENCIES, Word(DEP_DWORDS * |semDeps[..]|), SemDeps)]
    {
      semDeps := ConsumeList(ctx, q);
      total := numChunks;
      if semDeps.Length > 0 {
        total := AppendChunk(chunks, total, Chunk(CHUNK_ID_DEPENDENCIES, Word(DEP_DWORDS * semDeps.Length), SemDeps));
      }
    }

    // The wait list as an array of dependencies, counted first and then walked.
    method ConsumeList(ctx: Context, q: Queue) returns (semDeps: array<Dep>)
      requires ctx in ctxs && Drainable(SemViews(), ctxs, ListOf(ctx, q))
      modifies this`sems, ctx`semList, sems
      ensures ListReleased(ctx, q)
      ensures fresh(semDeps) && semDeps[..] == Deps(old(View()), old(ListOf(ctx, q)))
    {
      var semCount := CountList(ctx, q);
      semDeps := new Dep[semCount](_ => Dep(Queue(0, 0, 0), 0, 0));
      DrainInto(ctx, q, semDeps);
    }

    static method AppendChunk(chunks: array<Chunk>, numChunks: nat, chunk: Chunk) returns (total: nat)
      requires numChunks < chunks.Length
      modifies chunks
      ensures total == numChunks + 1 && chunks[..total] == old(chunks[..numChunks]) + [chunk]
    {
      var i := numChunks;
      total := numChunks + 1;
      chunks[i] := chunk;
    }

    // What the kernel reads when it is handed the first n chunks.
    function Marshal(chunks: seq<Chunk>, data: seq<ChunkData>, userDeps: seq<Dep>, semDeps: seq<Dep>): seq<SentChunk>
      requires forall k :: 0 <= k < |chunks| && chunks[k].data.DataAt? ==> chunks[k].data.index < |data|
    {
      seq(|chunks|, k requires 0 <= k < |chunks| => Read(chunks[k], data, userDeps, semDeps))
    }

    // amdgpu_cs_submit_one
    method SubmitOne(ctx: Context, req: Request, reply: Reply) returns (r: Errno, seqNo: int, sent: Sent)
      requires CountsRight(View()) && ListsRight(View())
      requires Allowed(View(), Submit(ctx, req.Target(), |req.ibs|, reply))
      requires |req.ibs| + 3 < TWO_TO_32
      modifies this`sems, this`log, ctx, sems
      ensures View() == Next(old(View()), Submit(ctx, req.Target(), |req.ibs|, reply)) && sems <= old(sems)
      ensures if BadQueue(req.Target()) then r == EINVAL && sent == Nothing
              else if req.ibs == [] then r == Success && seqNo == 0 && sent == Nothing
              else
                && sent == Sent(ctx.id, req.boList, Layout(req, Deps(old(View()), old(ListOf(ctx, req.Target())))))
                && match reply
                   case Accepted(n) => r == Success && seqNo == n
                   case Rejected(code) => r == KernelError(code)
      ensures if req.ipType >= HW_IP_NUM || req.ring >= CS_MAX_RINGS then
                r == EINVAL && sent == Nothing && View() == old(View())
              else if req.ibs == [] then
                r == Success && seqNo == 0 && sent == Nothing && View() == old(View())
              else
                var q := Queue(req.ipType, req.ipInstance, req.ring);
                Submitted(old(View()), View(), ctx, q, req, reply, r, seqNo, sent)
    {
      seqNo, sent := 0, Nothing;
      if req.ipType >= HW_IP_NUM {
        return EINVAL, seqNo, sent;
      }
      if req.ring >= CS_MAX_RINGS {
        return EINVAL, seqNo, sent;
      }
      if |req.ibs| == 0 {
        return Success, 0, sent;
      }
      r, seqNo, sent := SubmitIbs(ctx, req.Target(), req, reply);
    }

    // The case of submit_one that reaches the kernel.
    method SubmitIbs(ctx: Context, q: Queue, req: Request, reply: Reply) returns (r: Errno, seqNo: int, sent: Sent)
      requires CountsRight(View()) && ListsRight(View())
      requires q == req.Target() && req.ibs != [] && !BadQueue(q)
      requires Allowed(View(), Submit(ctx, q, |req.ibs|, reply)) && |req.ibs| + 3 < TWO_TO_32
      modifies this`sems, this`log, ctx, sems
      ensures View() == Next(old(View()), Submit(ctx, q, |req.ibs|, reply)) && sems <= old(sems)
      ensures sent == Sent(ctx.id, req.boList, Layout(req, Deps(old(View()), old(ListOf(ctx, q)))))
      ensures match reply
              case Accepted(n) => r == Success && seqNo == n
              case Rejected(code) => r == KernelError(code)
      ensures Submitted(old(View()), View(), ctx, q, req, reply, r, seqNo, sent)
    {
      sent := Assemble(ctx, q, req);
      r, seqNo := Finish(ctx, q, reply, old(View()), |req.ibs|);
      StepSubmitted(old(View()), ctx, q, req, reply, r, seqNo, sent);
    }

    // The end of submit_one: the kernel's answer.
    method Finish(ctx: Context, q: Queue, reply: Reply, ghost before: State, ghost ibs: nat)
        returns (r: Errno, seqNo: int)
      requires ctx in ctxs && ctx in before.ctxs && ibs > 0 && !BadQueue(q)
      requires Allowed(before, Submit(ctx, q, ibs, reply))
      requires ctxs == before.ctxs.Keys && ever == before.ever && log == before.log
      requires forall c :: c in ctxs && c != ctx ==> before.ctxs[c] == CtxView(c.lastSeq, c.semList)
      requires ctx.lastSeq == before.ctxs[ctx].lastSeq
      requires var xs := before.ctxs[ctx].List(q);
               && SemViews() == Released(before.sems, Elems(xs))
               && ctx.semList == if xs == [] then before.ctxs[ctx].semList else before.ctxs[ctx].semList[q := []]
      modifies this`log, ctx`lastSeq
      ensures View() == Next(before, Submit(ctx, q, ibs, reply))
      ensures match reply
              case Accepted(n) => r == Success && seqNo == n
              case Rejected(code) => r == KernelError(code)
    {
      seqNo := 0;
      ghost var xs := before.ctxs[ctx].List(q);
      log := log + [ESubmit(ctx, q, xs, Deps(before, xs), reply)];
      match reply {
        case Rejected(code) =>
          r := KernelError(code);
        case Accepted(n) =>
          seqNo := n;
          ctx.lastSeq := ctx.lastSeq[q := seqNo];
          r := Success;
      }
      assert CtxViews() == Next(before, Submit(ctx, q, ibs, reply)).ctxs;
    }

    // submit_one up to the kernel call.
    method Assemble(ctx: Context, q: Queue, req: Request) returns (sent: Sent)
      requires CountsRight(View()) && ListsRight(View()) && ctx in ctxs
      requires req.ibs != [] && |req.ibs| + 3 < TWO_TO_32
      modifies this`sems, ctx`semList, sems
      ensures ListReleased(ctx, q)
      ensures sent == Sent(ctx.id, req.boList, Layout(req, Deps(old(View()), old(ListOf(ctx, q)))))
    {
      ListIsDrainable(ctx, q);
      var chunks, data, deps, numChunks := BuildChunks(req);
      sent := SendChunks(ctx, q, req, chunks, data, deps, numChunks);
    }

    // The rest of it: the semaphores' chunk, and the kernel reading the whole.
    method SendChunks(ctx: Context, q: Queue, req: Request,
                      chunks: array<Chunk>, data: array<ChunkData>, deps: array<Dep>, numChunks: nat)
        returns (sent: Sent)
      requires ctx in ctxs && Drainable(SemViews(), ctxs, ListOf(ctx, q))
      requires numChunks < chunks.Length && numChunks == |Layout(req, [])| && deps[..] == UserDepsOf(req)
      requires forall k :: 0 <= k < numChunks ==>
                 chunks[k].data != SemDeps && (chunks[k].data.DataAt? ==> chunks[k].data.index < data.Length)
      requires forall k, sd :: 0 <= k < numChunks ==> Read(chunks[k], data[..], deps[..], sd) == Layout(req, [])[k]
      modifies this`sems, ctx`semList, sems, chunks
      ensures ListReleased(ctx, q)
      ensures sent == Sent(ctx.id, req.boList, Layout(req, Deps(old(View()), old(ListOf(ctx, q)))))
    {
      ghost var built := chunks[..numChunks];
      var semDeps, total := AppendSemDeps(ctx, q, chunks, numChunks);
      MarshalledLayout(req, built, chunks[..total], data[..], semDeps[..]);
      sent := Sent(ctx.id, req.boList, Marshal(chunks[..total], data[..], deps[..], semDeps[..]));
    }

    lemma ListIsDrainable(ctx: Context, q: Queue)
      requires CountsRight(View()) && ListsRight(View()) && ctx in ctxs
      ensures Drainable(SemViews(), ctxs, ListOf(ctx, q))
    {
      var v := View();
      ListedAreSignalled(v, ctx, q);
      assert v.ctxs[ctx].List(q) == ListOf(ctx, q);
      assert forall x :: x in Elems(ListOf(ctx, q)) ==> v.sems[x].refcount > 0 && v.sems[x].fence.context in v.ctxs;
    }

    lemma MarshalledLayout(req: Request, built: seq<Chunk>, chunks: seq<Chunk>, data: seq<ChunkData>, semDeps: seq<Dep>)
      requires |built| == |Layout(req, [])|
      requires forall k :: 0 <= k < |built| ==>
                 built[k].data != SemDeps && (built[k].data.DataAt? ==> built[k].data.index < |data|)
      requires forall k, sd :: 0 <= k < |built| ==> Read(built[k], data, UserDepsOf(req), sd) == Layout(req, [])[k]
      requires chunks == built + if semDeps == [] then []
                                 else [Chunk(CHUNK_ID_DEPENDENCIES, Word(DEP_DWORDS * |semDeps|), SemDeps)]
      ensures forall k :: 0 <= k < |chunks| && chunks[k].data.DataAt? ==> chunks[k].data.index < |data|
      ensures Marshal(chunks, data, UserDepsOf(req), semDeps) == Layout(req, semDeps)
    {
    }

    // amdgpu_cs_submit: the requests in turn, up to and including the first that fails. seqNos
    // are the numbers written back, one to each request before that.
    method SubmitRequests(ctx: Context?, requests: bool, reqs: seq<Request>, replies: seq<Reply>)
        returns (r: Errno, seqNos: seq<int>)
      requires |replies| == |reqs|
      requires ctx != null ==> CountsRight(View()) && ListsRight(View()) && ctx in ctxs
      requires forall i :: 0 <= i < |reqs| ==> Submittable(reqs[i])
      modifies this`sems, this`log, ctx, sems
      ensures ctx == null || !requests ==> r == EINVAL && seqNos == [] && View() == old(View())
      ensures ctx != null && requests ==> View() == SubmitAll(old(View()), ctx, reqs, replies)
      ensures ctx != null && requests ==> Answered(reqs, replies, r, seqNos)
    {
      seqNos := [];
      if ctx == null || !requests {
        return EINVAL, seqNos;
      }
      r, seqNos := SubmitEach(ctx, reqs, replies);
    }

    // The loop of amdgpu_cs_submit.
    method SubmitEach(ctx: Context, reqs: seq<Request>, replies: seq<Reply>) returns (r: Errno, seqNos: seq<int>)
      requires |replies| == |reqs| && CountsRight(View()) && ListsRight(View()) && ctx in ctxs
      requires forall i :: 0 <= i < |reqs| ==> Submittable(reqs[i])
      modifies this`sems, this`log, ctx, sems
      ensures View() == SubmitAll(old(View()), ctx, reqs, replies) && Answered(reqs, replies, r, seqNos)
    {
      r, seqNos := Success, [];
      ghost var start := View();
      var i := 0;
      assert reqs[0..] == reqs && replies[0..] == replies;
      while i < |reqs|
        invariant 0 <= i <= |reqs| && r == Success && sems <= old(sems)
        invariant Underway(ctx, reqs, replies, i, seqNos, start)
      {
        r, seqNos := SubmitNext(ctx, reqs, replies, i, seqNos, start);
        if r != Success {
          return;
        }
        i := i + 1;
      }
      assert reqs[..|reqs|] == reqs && replies[..|reqs|] == replies && reqs[|reqs|..] == [];
    }

    // The first i requests have been submitted and have their numbers.
    ghost predicate Underway(ctx: Context, reqs: seq<Request>, replies: seq<Reply>, i: nat, seqNos: seq<int>,
                             start: State)
      requires |replies| == |reqs| && i <= |reqs| && ctx in start.ctxs
      requires forall k :: 0 <= k < |reqs| ==> Submittable(reqs[k])
      reads this, sems, ctxs
    {
      && CountsRight(View()) && ListsRight(View()) && ctx in ctxs
      && SubmitAll(start, ctx, reqs, replies) == SubmitAll(View(), ctx, reqs[i..], replies[i..])
      && |seqNos| == i && Answered(reqs[..i], replies[..i], Success, seqNos)
    }

    // One turn of the loop of amdgpu_cs_submit.
    method SubmitNext(ctx: Context, reqs: seq<Request>, replies: seq<Reply>, i: nat, seqNos: seq<int>,
                      ghost start: State)
        returns (r: Errno, more: seq<int>)
      requires |replies| == |reqs| && i < |reqs| && ctx in start.ctxs
      requires forall k :: 0 <= k < |reqs| ==> Submittable(reqs[k])
      requires Underway(ctx, reqs, replies, i, seqNos, start)
      modifies this`sems, this`log, ctx, sems
      ensures sems <= old(sems)
      ensures if r == Success then Underway(ctx, reqs, replies, i + 1, more, start)
              else View() == SubmitAll(start, ctx, reqs, replies) && Answered(reqs, replies, r, more)
    {
      SubmitAllStep(View(), ctx, reqs, replies, i);
      NextKeepsRight(View(), Submit(ctx, reqs[i].Target(), |reqs[i].ibs|, replies[i]));
      var seqNo, sent;
      r, seqNo, sent := SubmitOne(ctx, reqs[i], replies[i]);
      AnsweredMore(reqs, replies, i, seqNos);
      more := if r == Success then seqNos + [seqNo] else seqNos;
    }
  }

  lemma NextKeepsRight(s: State, op: Op)
    requires CountsRight(s) && ListsRight(s) && Allowed(s, op)
    ensures CountsRight(Next(s, op)) && ListsRight(Next(s, op))
  {
    NextCountsRight(s, op);
    NextListsRight(s, op);
  }

  ghost predicate Submittable(req: Request) {
    0 <= req.ipType && req.ipInstance == 0 && 0 <= req.ring && |req.ibs| + 3 < TWO_TO_32
  }

  ghost predicate Fails(req: Request, reply: Reply) {
    req.ipType >= HW_IP_NUM || req.ring >= CS_MAX_RINGS || (req.ibs != [] && reply.Rejected?)
  }

  // The number a request that does not fail is given: 0 without IBs, else the kernel's.
  ghost function NumberOf(req: Request, reply: Reply): int
    requires !Fails(req, reply)
  {
    if req.ibs == [] then 0 else reply.seqNo
  }

  ghost function ErrorOf(req: Request, reply: Reply): Errno
    requires Fails(req, reply)
  {
    if req.ipType >= HW_IP_NUM || req.ring >= CS_MAX_RINGS then EINVAL else KernelError(reply.code)
  }

  // Every request before the first that fails has its number, and the result is that one's error.
  ghost predicate Answered(reqs: seq<Request>, replies: seq<Reply>, r: Errno, seqNos: seq<int>)
    requires |replies| == |reqs|
  {
    && |seqNos| <= |reqs|
    && (forall k :: 0 <= k < |seqNos| ==> !Fails(reqs[k], replies[k]) && seqNos[k] == NumberOf(reqs[k], replies[k]))
    && if |seqNos| == |reqs| then r == Success
       else Fails(reqs[|seqNos|], replies[|seqNos|]) && r == ErrorOf(reqs[|seqNos|], replies[|seqNos|])
  }

  lemma AnsweredMore(reqs: seq<Request>, replies: seq<Reply>, i: nat, seqNos: seq<int>)
    requires |replies| == |reqs| && i < |reqs| && |seqNos| == i && Answered(reqs[..i], replies[..i], Success, seqNos)
    ensures if Fails(reqs[i], replies[i]) then Answered(reqs, replies, ErrorOf(reqs[i], replies[i]), seqNos)
            else Answered(reqs[..i + 1], replies[..i + 1], Success, seqNos + [NumberOf(reqs[i], replies[i])])
  {
  }

  ghost function SubmitAll(s: State, ctx: Context, reqs: seq<Request>, replies: seq<Reply>): State
    requires |replies| == |reqs| && ctx in s.ctxs
    requires forall i :: 0 <= i < |reqs| ==> Submittable(reqs[i])
    decreases |reqs|
  {
    if reqs == [] then s
    else
      assert Submittable(reqs[0]);
      var t := Next(s, Submit(ctx, reqs[0].Target(), |reqs[0].ibs|, replies[0]));
      if Fails(reqs[0], replies[0]) then t else SubmitAll(t, ctx, reqs[1..], replies[1..])
  }

  lemma SubmitAllStep(s: State, ctx: Context, reqs: seq<Request>, replies: seq<Reply>, i: nat)
    requires |replies| == |reqs| && ctx in s.ctxs && i < |reqs|
    requires forall k :: 0 <= k < |reqs| ==> Submittable(reqs[k])
    ensures Submittable(reqs[i]) && Allowed(s, Submit(ctx, reqs[i].Target(), |reqs[i].ibs|, replies[i]))
    ensures var t := Next(s, Submit(ctx, reqs[i].Target(), |reqs[i].ibs|, replies[i]));
            SubmitAll(s, ctx, reqs[i..], replies[i..]) ==
            if Fails(reqs[i], replies[i]) then t else SubmitAll(t, ctx, reqs[i + 1..], replies[i + 1..])
  {
    assert reqs[i..][1..] == reqs[i + 1..] && replies[i..][1..] == replies[i + 1..];
  }
}
