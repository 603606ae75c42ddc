// Buffer objects (amdgpu/amdgpu_bo.c): one reference-counted object per kernel handle,
// found through the handle table, with a nested CPU mapping.
module BufferObjects {
  import opened UtilMath
  import opened Wrappers
  import opened HandleTables

  const NULL := 0

  class Bo {
    const handle: int
    const allocSize: int
    var refcount: int
    var cpuPtr: int
    var cpuMapCount: int

    constructor (handle: int, allocSize: int)
      ensures this.handle == handle && this.allocSize == allocSize
      ensures refcount == 1 && cpuPtr == NULL && cpuMapCount == 0
    {
      this.handle, this.allocSize := handle, allocSize;
      refcount, cpuPtr, cpuMapCount := 1, NULL, 0;
    }

    // The pointer is set exactly while the nesting count is positive.
    ghost predicate MapConsistent()
      reads this
    {
      cpuMapCount >= 0 && (cpuPtr != NULL <==> cpuMapCount > 0)
    }

    // The test find_bo_by_cpu_mapping makes on one entry of the table.
    predicate Hit(cpu: int, size: int)
      reads this
    {
      cpuPtr != NULL && size <= allocSize && cpuPtr <= cpu < Wrap(cpuPtr + allocSize, TWO_TO_64)
    }
  }

  // The CPU mappings of this process by buffer handle: those that exist, the map calls that
  // succeeded, the munmap calls, and those among them that failed.
  datatype Mappings = Mappings(existing: multiset<int>, maps: multiset<int>, munmaps: multiset<int>,
                                 failed: multiset<int>) {
    function AfterMap(h: int): Mappings {
      this.(existing := existing + multiset{h}, maps := maps + multiset{h})
    }

    function AfterMunmap(h: int, ok: bool): Mappings {
      if ok then this.(existing := existing - multiset{h}, munmaps := munmaps + multiset{h})
      else this.(munmaps := munmaps + multiset{h}, failed := failed + multiset{h})
    }

    // All map calls for h but the n still in use have been answered by one munmap call each,
    // and what exists beyond those n is what munmap failed to remove.
    ghost predicate Settled(h: int, n: nat) {
      maps[h] == munmaps[h] + n && existing[h] == failed[h] + n
    }
  }

  // What the kernel keeps for this process. Each call asserts what would make it misused:
  // a handle is closed only while open, and munmap is called only on a mapping that exists.
  class Kernel {
    var open: set<int>
    var mem: Mappings

    constructor ()
      ensures open == {} && mem == Mappings(multiset{}, multiset{}, multiset{}, multiset{})
    {
      open, mem := {}, Mappings(multiset{}, multiset{}, multiset{}, multiset{});
    }

    method Create(handle: int)
      requires handle !in open
      modifies this`open
      ensures open == old(open) + {handle}
    {
      open := open + {handle};
    }

    // DrmPrimeFDToHandle: the same handle again for a buffer that is already open.
    method PrimeFdToHandle(handle: int)
      modifies this`open
      ensures open == old(open) + {handle}
    {
      open := open + {handle};
    }

    method Close(handle: int)
      requires handle in open
      modifies this`open
      ensures open == old(open) - {handle}
    {
      open := open - {handle};
    }

    method Map(handle: int)
      requires handle in open
      modifies this`mem
      ensures mem == old(mem).AfterMap(handle)
    {
      mem := mem.AfterMap(handle);
    }

    // A munmap that fails leaves the mapping in place.
    method Unmap(handle: int, ok: bool)
      requires mem.existing[handle] > 0
      modifies this`mem
      ensures mem == old(mem).AfterMunmap(handle, ok)
    {
      mem := mem.AfterMunmap(handle, ok);
    }
  }

  datatype HandleType = GemFlinkName | DmaBufFd | Kms | KmsNoImport | Other

  // Table and references name the same objects, each under its own handle.
  ghost predicate Registered(objects: map<int, Bo>, refs: map<Bo, int>) {
    && (forall h :: h in objects ==> objects[h] in refs && objects[h].handle == h)
    && (forall bo :: bo in refs ==> bo.handle in objects && objects[bo.handle] == bo)
  }

  lemma RegisteredMore(objects: map<int, Bo>, refs: map<Bo, int>, bo: Bo)
    requires Registered(objects, refs) && bo.handle !in objects && bo !in refs
    ensures Registered(objects[bo.handle := bo], refs[bo := 1])
  {
  }

  lemma RegisteredLess(objects: map<int, Bo>, refs: map<Bo, int>, bo: Bo)
    requires Registered(objects, refs) && bo in refs
    ensures Registered(objects - {bo.handle}, refs - {bo})
  {
  }

  class BoDevice {
    const table: HandleTable<Bo>
    const kernel: Kernel
    ghost var refs: map<Bo, int>    // the references clients hold, per live object

    // The table, the counts and the kernel agree.
    ghost predicate Valid()
      reads this, kernel, table, table.values, refs.Keys
    {
      && Shelved()
      && forall bo :: bo in refs ==> Counted(bo)
    }

    // Everything but the counts of the single objects. A handle without an object may be
    // open, but none of its mappings is in use.
    ghost predicate Shelved()
      reads this, kernel, table, table.values
    {
      && table.Valid()
      && Registered(table.Contents(), refs)
      && table.Contents().Keys <= kernel.open
      && (forall h :: h in kernel.open ==> 0 <= h < TWO_TO_32)
      && (forall h :: h !in table.Contents() ==> kernel.mem.Settled(h, 0))
    }

    ghost predicate Counted(bo: Bo)
      requires bo in refs
      reads this, bo, kernel
    {
      bo.refcount == refs[bo] && refs[bo] > 0 && Tracked(bo)
    }

    // One map call is unanswered exactly while the pointer is set.
    ghost predicate Tracked(bo: Bo)
      reads bo, kernel
    {
      bo.MapConsistent() && kernel.mem.Settled(bo.handle, if bo.cpuPtr == NULL then 0 else 1)
    }

    // The handles that are open although no object owns them.
    ghost function Orphans(): set<int>
      reads kernel, table, table.values
    {
      kernel.open - table.Contents().Keys
    }

    // The kernel has exactly the handles of the table open.
    ghost predicate Agrees()
      reads kernel, table, table.values
    {
      kernel.open == table.Contents().Keys
    }

    // bo_create finds the memory it needs.
    ghost predicate Room(handle: int, callocOk: bool, reallocOk: bool)
      reads table
    {
      callocOk && (handle < table.maxKey || reallocOk)
    }

    // The array behind the table is the old one or was allocated since.
    twostate predicate TableGrowsFresh()
      reads table
    {
      table.values == old(table.values) || fresh(table.values)
    }

    constructor (perPage: int)
      requires IsPowerOfTwo(perPage) && perPage < TWO_TO_32
      ensures Valid() && refs == map[] && table.Contents() == map[] && kernel.open == {}
      ensures fresh(table) && fresh(table.values) && fresh(kernel)
      ensures table.perPage == perPage
    {
      table := new HandleTable<Bo>(perPage);
      kernel := new Kernel();
      refs := map[];
    }

    // amdgpu_bo_create, under the table lock, for a handle that has no object yet.
    method Create(size: int, handle: int, callocOk: bool, reallocOk: bool) returns (r: Errno, bo: Option<Bo>)
      requires table.Valid() && 0 <= handle < TWO_TO_32
      requires handle < table.maxKey || handle + table.perPage < TWO_TO_32
      modifies table, table.values
      ensures table.Valid() && TableGrowsFresh()
      ensures r == if old(Room(handle, callocOk, reallocOk)) then Success else ENOMEM
      ensures bo.Some? <==> r == Success
      ensures bo.None? ==> table.Contents() == old(table.Contents())
      ensures bo.Some? ==>
                && fresh(bo.value) && bo.value.handle == handle && bo.value.allocSize == size
                && bo.value.refcount == 1 && bo.value.cpuPtr == NULL && bo.value.cpuMapCount == 0
                && table.Contents() == old(table.Contents())[handle := bo.value]
    {
      if !callocOk {
        return ENOMEM, None;
      }
      var b := new Bo(handle, size);
      r := table.Insert(handle, b, reallocOk);
      if r != Success {
        return r, None;
      }
      return Success, Some(b);
    }

    // An open handle without an object gets one, or is closed again for want of memory.
    twostate predicate Opened(h: int, size: int, callocOk: bool, reallocOk: bool, r: Errno, new bo: Option<Bo>)
      reads this, kernel, table, table.values
    {
      if old(Room(h, callocOk, reallocOk)) then
        && r == Success && bo.Some? && fresh(bo.value) && bo.value.handle == h && bo.value.allocSize == size
        && refs == old(refs)[bo.value := 1]
        && table.Contents() == old(table.Contents())[h := bo.value]
        && kernel.open == old(kernel.open) + {h}
      else
        && r == ENOMEM && bo.None?
        && refs == old(refs)
        && table.Contents() == old(table.Contents())
        && kernel.open == old(kernel.open) - {h}
    }

    method CreateOrClose(size: int, handle: int, callocOk: bool, reallocOk: bool) returns (r: Errno, bo: Option<Bo>)
      requires Valid() && handle in kernel.open && handle !in table.Contents() && handle + table.perPage < TWO_TO_32
      modifies this`refs, kernel`open, table, table.values
      ensures Valid() && TableGrowsFresh()
      ensures Opened(handle, size, callocOk, reallocOk, r, bo)
      ensures r == if callocOk && (handle < old(table.maxKey) || reallocOk) then Success else ENOMEM
    {
      r, bo := Create(size, handle, callocOk, reallocOk);
      if r != Success {
        assert table.Contents() == old(table.Contents());
        Discard(handle);
        return;
      }
      assert bo.value !in refs;
      Enroll(bo.value, old(table.Contents()));
    }

    // DrmCloseBufferHandle on a handle that never got an object.
    method Discard(handle: int)
      requires Valid() && handle in kernel.open && handle !in table.Contents()
      modifies kernel`open
      ensures Valid() && kernel.open == old(kernel.open) - {handle}
    {
      kernel.Close(handle);
    }

    // The table holds the new object already; now the books do too.
    ghost method Enroll(bo: Bo, before: map<int, Bo>)
      requires table.Valid() && table.Contents() == before[bo.handle := bo]
      requires Registered(before, refs) && bo.handle !in before && bo !in refs
      requires before.Keys <= kernel.open && bo.handle in kernel.open
      requires forall h :: h in kernel.open ==> 0 <= h < TWO_TO_32
      requires forall h :: h !in before ==> kernel.mem.Settled(h, 0)
      requires forall other :: other in refs ==> Counted(other)
      requires bo.refcount == 1 && bo.cpuPtr == NULL && bo.cpuMapCount == 0
      modifies this`refs
      ensures Valid() && refs == old(refs)[bo := 1]
    {
      RegisteredMore(before, refs, bo);
      refs := refs[bo := 1];
    }

    // amdgpu_bo_alloc. The kernel's reply is the new handle, or an error.
    method Alloc(size: int, reply: Option<int>, code: int, callocOk: bool, reallocOk: bool)
        returns (r: Errno, bo: Option<Bo>)
      requires Valid()
      requires reply.Some? ==>
                 reply.value !in kernel.open && 0 <= reply.value && reply.value + table.perPage < TWO_TO_32
      modifies this`refs, kernel`open, table, table.values
      ensures Valid() && TableGrowsFresh() && Orphans() == old(Orphans())
      ensures reply.Some? ==> Opened(reply.value, size, callocOk, reallocOk, r, bo)
      ensures reply.Some? ==>
                r == if callocOk && (reply.value < old(table.maxKey) || reallocOk) then Success else ENOMEM
      ensures reply.None? ==>
                && r == KernelError(code) && bo == None
                && refs == old(refs) && table.Contents() == old(table.Contents()) && kernel.open == old(kernel.open)
    {
      if reply.None? {
        return KernelError(code), None;
      }
      kernel.Create(reply.value);
      r, bo := CreateOrClose(size, reply.value, callocOk, reallocOk);
    }

    // amdgpu_bo_import. For a dma-buf, prime is the handle the kernel answers with and
    // query the size it reports for it.
    method Import(kind: HandleType, prime: Option<int>, query: Option<int>, code: int, callocOk: bool, reallocOk: bool)
        returns (r: Errno, bo: Option<Bo>)
      requires Valid()
      requires prime.Some? ==> 0 <= prime.value && prime.value + table.perPage < TWO_TO_32
      modifies this`refs, kernel`open, table, table.values, refs.Keys
      ensures Valid() && TableGrowsFresh()
      ensures kind == DmaBufFd && prime.Some? ==> Imported(prime.value, query, code, callocOk, reallocOk, r, bo)
      ensures kind != DmaBufFd || prime.None? ==>
                && refs == old(refs) && table.Contents() == old(table.Contents()) && kernel.open == old(kernel.open)
                && bo == None
                && r == match kind
                        case GemFlinkName => ENOSYS
                        case Kms => EPERM
                        case KmsNoImport => EPERM
                        case Other => EINVAL
                        case DmaBufFd => KernelError(code)
    {
      match kind
      case GemFlinkName =>
        return ENOSYS, None;  // the flink table never has an entry, and fresh flink imports are not supported
      case Kms =>
        return EPERM, None;
      case KmsNoImport =>
        return EPERM, None;
      case Other =>
        return EINVAL, None;
      case DmaBufFd =>
        if prime.None? {
          return KernelError(code), None;
        }
        r, bo := ImportDmaBuf(prime.value, query, code, callocOk, reallocOk);
    }

    // An import that reached the kernel: an open buffer yields the object it already has,
    // one more reference held; otherwise a new object, or its handle is closed for want of
    // memory. A failed size query leaves the handle open, whether or not it has an object.
    twostate predicate Imported(h: int, query: Option<int>, code: int, callocOk: bool, reallocOk: bool,
                                r: Errno, new bo: Option<Bo>)
      reads this, kernel, table, table.values
    {
      if query.None? then
        && r == KernelError(code) && bo == None
        && refs == old(refs) && table.Contents() == old(table.Contents())
        && kernel.open == old(kernel.open) + {h}
      else if h in old(table.Contents()) then
        && r == Success && bo == Some(old(table.Contents())[h])
        && bo.value in old(refs) && refs == old(refs)[bo.value := old(refs)[bo.value] + 1]
        && table.Contents() == old(table.Contents())
        && kernel.open == old(kernel.open) + {h}
      else
        Opened(h, query.value, callocOk, reallocOk, r, bo)
    }

    // An import leaves kernel and table in agreement exactly when the size query succeeds or
    // the buffer has its object already; and it is only by a later import of the same buffer,
    // with a size query that succeeds, that an orphan is adopted or closed.
    method ImportDmaBuf(h: int, query: Option<int>, code: int, callocOk: bool, reallocOk: bool)
        returns (r: Errno, bo: Option<Bo>)
      requires Valid() && 0 <= h && h + table.perPage < TWO_TO_32
      modifies this`refs, kernel`open, table, table.values, refs.Keys
      ensures Valid() && TableGrowsFresh()
      ensures Imported(h, query, code, callocOk, reallocOk, r, bo)
      ensures r == if query.None? then KernelError(code)
                   else if h in old(table.Contents()) || (callocOk && (h < old(table.maxKey) || reallocOk)) then Success
                   else ENOMEM
      ensures old(Agrees()) ==> (Agrees() <==> query.Some? || h in old(table.Contents()))
      ensures forall o :: o in old(Orphans()) ==> (o !in Orphans() <==> o == h && query.Some?)
    {
      r, bo := OpenAndFind(h, query, code, callocOk, reallocOk);
    }

    // Get the KMS handle, query the size, then look the buffer up.
    method OpenAndFind(h: int, query: Option<int>, code: int, callocOk: bool, reallocOk: bool)
        returns (r: Errno, bo: Option<Bo>)
      requires Valid() && 0 <= h && h + table.perPage < TWO_TO_32
      modifies this`refs, kernel`open, table, table.values, refs.Keys
      ensures Valid() && TableGrowsFresh()
      ensures Imported(h, query, code, callocOk, reallocOk, r, bo)
    {
      kernel.PrimeFdToHandle(h);
      if query.None? {
        return KernelError(code), None;
      }
      r, bo := FindOrCreate(h, query.value, callocOk, reallocOk);
    }

    // An open handle either already has its object or gets one now.
    method FindOrCreate(h: int, size: int, callocOk: bool, reallocOk: bool) returns (r: Errno, bo: Option<Bo>)
      requires Valid() && h in kernel.open && h + table.perPage < TWO_TO_32
      modifies this`refs, kernel`open, table, table.values, refs.Keys
      ensures Valid() && TableGrowsFresh()
      ensures Imported(h, Some(size), 0, callocOk, reallocOk, r, bo)
    {
      bo := table.Lookup(h);
      if bo.Some? {
        IncRef(bo.value);
        return Success, bo;
      }
      r, bo := CreateOrClose(size, h, callocOk, reallocOk);
    }

    // amdgpu_bo_free: the last reference takes the object out of the table, ends its CPU
    // mapping whatever the nesting, and closes the kernel handle, once. A mapping outlives
    // it exactly when there was one and munmap failed.
    method Free(bo: Bo, munmapOk: bool)
      requires Valid() && bo in refs
      modifies this`refs, kernel, table.values, bo
      ensures Valid() && Orphans() == old(Orphans())
      ensures old(refs[bo]) > 1 ==>
                && refs == old(refs)[bo := old(refs[bo]) - 1] && table.Contents() == old(table.Contents())
                && kernel.open == old(kernel.open) && kernel.mem == old(kernel.mem)
      ensures old(refs[bo]) == 1 ==>
                && refs == old(refs) - {bo} && table.Contents() == old(table.Contents()) - {bo.handle}
                && kernel.open == old(kernel.open) - {bo.handle}
                && kernel.mem == AfterLastUnmap(old(kernel.mem), bo.handle, old(bo.cpuPtr), munmapOk)
    {
      var last := DropReference(bo);
      assert table.Contents() == old(table.Contents());
      if last {
        Release(bo, munmapOk);
      }
    }

    static function AfterLastUnmap(mem: Mappings, handle: int, cpuPtr: int, munmapOk: bool): (after: Mappings)
      ensures forall h, n :: h != handle ==> (after.Settled(h, n) <==> mem.Settled(h, n))
    {
      if cpuPtr == NULL then mem else mem.AfterMunmap(handle, munmapOk)
    }

    // Everything as in Valid, but the count of bo has just reached zero.
    ghost predicate Dying(bo: Bo)
      reads this, kernel, table, table.values, refs.Keys, bo
    {
      && bo in refs && refs[bo] == 1 && bo.refcount == 0 && Tracked(bo)
      && Shelved()
      && forall other :: other in refs && other != bo ==> Counted(other)
    }

    // update_references(&bo->refcount, NULL): true when the count reaches zero.
    method DropReference(bo: Bo) returns (last: bool)
      requires Valid() && bo in refs
      modifies this`refs, bo`refcount
      ensures last <==> old(refs[bo]) == 1
      ensures last ==> Dying(bo) && refs == old(refs)
      ensures !last ==> Valid() && refs == old(refs)[bo := old(refs[bo]) - 1]
    {
      bo.refcount := bo.refcount - 1;
      last := bo.refcount == 0;
      if !last {
        refs := refs[bo := refs[bo] - 1];
      }
    }

    // The branch of bo_free for the last reference.
    method Release(bo: Bo, munmapOk: bool)
      requires Dying(bo)
      modifies this`refs, kernel, table.values, bo
      ensures Valid() && refs == old(refs) - {bo}
      ensures table.Contents() == old(table.Contents()) - {bo.handle} && kernel.open == old(kernel.open) - {bo.handle}
      ensures kernel.mem == AfterLastUnmap(old(kernel.mem), bo.handle, old(bo.cpuPtr), munmapOk)
    {
      RegisteredLess(table.Contents(), refs, bo);
      TearDown(bo, munmapOk);
      refs := refs - {bo};
    }

    method TearDown(bo: Bo, munmapOk: bool)
      requires Tracked(bo) && table.Valid() && bo.handle in kernel.open && 0 <= bo.handle
      modifies kernel, table.values, bo
      ensures table.Valid() && table.Contents() == old(table.Contents()) - {bo.handle}
      ensures kernel.open == old(kernel.open) - {bo.handle} && kernel.mem.Settled(bo.handle, 0)
      ensures kernel.mem == AfterLastUnmap(old(kernel.mem), bo.handle, old(bo.cpuPtr), munmapOk)
    {
      table.Remove(bo.handle);
      DropMapping(bo, munmapOk);
      kernel.Close(bo.handle);
    }

    // The final free unmaps once, whatever the nesting depth; the mapping is left behind
    // exactly when there was one and munmap failed.
    method DropMapping(bo: Bo, munmapOk: bool)
      requires Tracked(bo)
      modifies kernel`mem, bo`cpuPtr, bo`cpuMapCount
      ensures Tracked(bo) && bo.cpuPtr == NULL
      ensures kernel.mem == AfterLastUnmap(old(kernel.mem), bo.handle, old(bo.cpuPtr), munmapOk)
      ensures kernel.mem.existing[bo.handle] == old(kernel.mem.failed[bo.handle])
              <==> old(bo.cpuPtr) == NULL || munmapOk
    {
      if bo.cpuMapCount > 0 {
        bo.cpuMapCount := 1;
        var _ := Unmap(bo, munmapOk, 0);
      }
    }

    // amdgpu_bo_inc_ref
    method IncRef(bo: Bo)
      requires Valid() && bo in refs
      modifies this`refs, bo`refcount
      ensures Valid() && refs == old(refs)[bo := old(refs[bo]) + 1]
    {
      bo.refcount := bo.refcount + 1;
      refs := refs[bo := refs[bo] + 1];
    }

    // amdgpu_bo_cpu_map. The kernel maps only the outermost time; its reply is the address.
    method CpuMap(bo: Bo, reply: Option<int>, code: int) returns (r: Errno, cpu: int)
      requires Valid() && bo in refs
      requires reply.Some? ==> reply.value != NULL
      modifies kernel`mem, bo`cpuPtr, bo`cpuMapCount
      ensures Valid()
      ensures old(bo.cpuMapCount) > 0 ==>
                && r == Success && cpu == bo.cpuPtr == old(bo.cpuPtr) && bo.cpuMapCount == old(bo.cpuMapCount) + 1
                && kernel.mem == old(kernel.mem)
      ensures old(bo.cpuMapCount) == 0 && reply.Some? ==>
                && r == Success && cpu == bo.cpuPtr == reply.value && bo.cpuMapCount == 1
                && kernel.mem == old(kernel.mem).AfterMap(bo.handle)
      ensures old(bo.cpuMapCount) == 0 && reply.None? ==>
                && r == KernelError(code) && bo.cpuPtr == NULL && bo.cpuMapCount == 0
                && kernel.mem == old(kernel.mem)
    {
      if bo.cpuPtr != NULL {
        bo.cpuMapCount := bo.cpuMapCount + 1;
        return Success, bo.cpuPtr;
      }
      if reply.None? {
        return KernelError(code), NULL;
      }
      kernel.Map(bo.handle);
      bo.cpuPtr := reply.value;
      bo.cpuMapCount := 1;
      return Success, reply.value;
    }

    // What one unmap call does: the innermost calls only count, the outermost forgets the
    // pointer even when munmap fails and the mapping stays.
    twostate predicate Unmapped(bo: Bo, munmapOk: bool, errno: int, r: Errno)
      reads bo, kernel
    {
      var depth := old(bo.cpuMapCount);
      && bo.cpuMapCount == (if depth == 0 then 0 else depth - 1)
      && bo.cpuPtr == (if depth > 1 then old(bo.cpuPtr) else NULL)
      && kernel.mem == (if depth == 1 then old(kernel.mem).AfterMunmap(bo.handle, munmapOk) else old(kernel.mem))
      && r == if depth == 0 then EINVAL else if depth > 1 || munmapOk then Success else KernelError(-errno)
    }

    // amdgpu_bo_cpu_unmap on one object.
    method Unmap(bo: Bo, munmapOk: bool, errno: int) returns (r: Errno)
      requires Tracked(bo)
      modifies kernel`mem, bo`cpuPtr, bo`cpuMapCount
      ensures Tracked(bo) && Unmapped(bo, munmapOk, errno, r)
    {
      if bo.cpuMapCount == 0 {
        return EINVAL;
      }
      bo.cpuMapCount := bo.cpuMapCount - 1;
      if bo.cpuMapCount > 0 {
        return Success;
      }
      kernel.Unmap(bo.handle, munmapOk);
      r := if munmapOk then Success else KernelError(-errno);
      bo.cpuPtr := NULL;
    }

    // amdgpu_bo_cpu_unmap. errno is what a failing munmap sets.
    method CpuUnmap(bo: Bo, munmapOk: bool, errno: int) returns (r: Errno)
      requires Valid() && bo in refs
      modifies kernel`mem, bo`cpuPtr, bo`cpuMapCount
      ensures Valid() && Unmapped(bo, munmapOk, errno, r)
    {
      r := Unmap(bo, munmapOk, errno);
    }

    ghost predicate Misses(cpu: int, size: int)
      reads this, refs.Keys
    {
      forall other :: other in refs ==> !other.Hit(cpu, size)
    }

    ghost predicate LowestHit(bo: Bo, cpu: int, size: int)
      reads this, refs.Keys, bo
    {
      && bo in refs && bo.Hit(cpu, size)
      && forall other :: other in refs && other.Hit(cpu, size) ==> bo.handle <= other.handle
    }

    // The object is mapped where the pointer points, at least as large as the size asked for,
    // and its mapping ends inside the address space.
    ghost predicate Maps(bo: Bo, cpu: int, size: int)
      reads bo
    {
      && bo.cpuPtr != NULL && size <= bo.allocSize
      && bo.cpuPtr <= cpu < bo.cpuPtr + bo.allocSize < TWO_TO_64
    }

    lemma MapsIsHit(bo: Bo, cpu: int, size: int)
      requires 0 <= cpu
      ensures Maps(bo, cpu, size) ==> bo.Hit(cpu, size)
      ensures bo.Hit(cpu, size) && 0 <= bo.cpuPtr && 0 <= bo.allocSize ==> cpu < bo.cpuPtr + bo.allocSize
    {
      var end := bo.cpuPtr + bo.allocSize;
      if end >= TWO_TO_64 {
        assert end % TWO_TO_64 <= end;
      }
    }

    lemma MapsAreHits(cpu: int, size: int)
      requires 0 <= cpu
      ensures forall other :: other in refs && Maps(other, cpu, size) ==> other.Hit(cpu, size)
      ensures forall other :: other in refs && other.Hit(cpu, size) && 0 <= other.cpuPtr && 0 <= other.allocSize ==>
                cpu < other.cpuPtr + other.allocSize
    {
      forall other | other in refs
        ensures Maps(other, cpu, size) ==> other.Hit(cpu, size)
        ensures other.Hit(cpu, size) && 0 <= other.cpuPtr && 0 <= other.allocSize ==>
                  cpu < other.cpuPtr + other.allocSize
      {
        MapsIsHit(other, cpu, size);
      }
    }

    // amdgpu_find_bo_by_cpu_mapping: the object with the lowest handle that passes the test.
    method FindByCpuMapping(cpu: int, size: int) returns (r: Errno, bo: Option<Bo>, offset: int)
      requires Valid() && 0 <= cpu && 0 <= size
      modifies this`refs, refs.Keys
      ensures Valid()
      ensures r == if cpu == NULL || size == 0 then EINVAL
                   else if old(Misses(cpu, size)) then ENXIO else Success
      ensures bo.Some? <==> r == Success
      ensures bo.None? ==> refs == old(refs) && offset == 0
      ensures bo.Some? ==>
                && bo.value in old(refs) && old(LowestHit(bo.value, cpu, size)) && offset == cpu - old(bo.value.cpuPtr)
                && refs == old(refs)[bo.value := old(refs)[bo.value] + 1]
      ensures bo.Some? ==>
                && old(bo.value.cpuPtr) != NULL && size <= bo.value.allocSize && old(bo.value.cpuPtr) <= cpu
                && (0 <= old(bo.value.cpuPtr) && 0 <= bo.value.allocSize ==>
                      cpu < old(bo.value.cpuPtr) + bo.value.allocSize)
                && forall other :: other in old(refs) && old(Maps(other, cpu, size)) ==> bo.value.handle <= other.handle
      ensures r == ENXIO ==> forall other :: other in old(refs) ==> !old(Maps(other, cpu, size))
    {
      if cpu == NULL || size == 0 {
        return EINVAL, None, 0;
      }
      MapsAreHits(cpu, size);
      bo, offset := HoldFirstHit(cpu, size);
      r := if bo.Some? then Success else ENXIO;
    }

    // The scan, and a reference to what it finds.
    method HoldFirstHit(cpu: int, size: int) returns (bo: Option<Bo>, offset: int)
      requires Valid()
      modifies this`refs, refs.Keys
      ensures Valid() && (bo.None? <==> old(Misses(cpu, size)))
      ensures bo.None? ==> refs == old(refs) && offset == 0
      ensures bo.Some? ==>
                && bo.value in old(refs) && old(LowestHit(bo.value, cpu, size)) && offset == cpu - old(bo.value.cpuPtr)
                && refs == old(refs)[bo.value := old(refs)[bo.value] + 1]
    {
      bo := FirstHit(cpu, size);
      if bo.None? {
        return None, 0;
      }
      offset := cpu - bo.value.cpuPtr;
      IncRef(bo.value);
    }

    // The scan of the table, handle by handle.
    method FirstHit(cpu: int, size: int) returns (found: Option<Bo>)
      requires Valid()
      ensures found.Some? ==> LowestHit(found.value, cpu, size)
      ensures found.None? <==> Misses(cpu, size)
    {
      var i := 0;
      while i < table.maxKey
        invariant 0 <= i <= table.maxKey
        invariant forall other :: other in refs && other.handle < i ==> !other.Hit(cpu, size)
      {
        found := table.Lookup(i);
        if found.Some? && found.value.Hit(cpu, size) {
          return;
        }
        i := i + 1;
      }
      found := None;
    }

    // Every munmap call answers a map call of its own, one map call is unanswered exactly
    // while the pointer is set, and once no reference is left only orphans are open and only
    // what munmap failed to remove is mapped.
    lemma MapsAnswered()
      requires Valid()
      ensures forall h :: kernel.mem.munmaps[h] <= kernel.mem.maps[h] <= kernel.mem.munmaps[h] + 1
      ensures forall bo :: bo in refs ==>
                (kernel.mem.maps[bo.handle] > kernel.mem.munmaps[bo.handle] <==> bo.cpuPtr != NULL)
      ensures refs == map[] ==> kernel.open == Orphans() && kernel.mem.existing == kernel.mem.failed
    {
      forall h ensures kernel.mem.munmaps[h] <= kernel.mem.maps[h] <= kernel.mem.munmaps[h] + 1 {
        if h in table.Contents() {
          assert Counted(table.Contents()[h]);
        }
      }
      if refs == map[] {
        forall h ensures kernel.mem.existing[h] == kernel.mem.failed[h] {
          assert h !in table.Contents();
        }
      }
    }
  }

  // A client that allocates a buffer and frees it at once leaves the registry, the kernel's
  // handles and the mappings as they were, whatever fails on the way.
  method AllocAndFree(dev: BoDevice, size: int, reply: Option<int>, code: int,
                      callocOk: bool, reallocOk: bool, munmapOk: bool)
      returns (r: Errno)
    requires dev.Valid()
    requires reply.Some? ==>
               && reply.value !in dev.kernel.open
               && 0 <= reply.value && reply.value + dev.table.perPage < TWO_TO_32
    modifies dev`refs, dev.kernel, dev.table, dev.table.values
    ensures dev.Valid() && dev.TableGrowsFresh()
    ensures dev.refs == old(dev.refs) && dev.table.Contents() == old(dev.table.Contents())
    ensures dev.kernel.open == old(dev.kernel.open) && dev.kernel.mem == old(dev.kernel.mem)
    ensures r == if reply.None? then KernelError(code)
                 else if old(dev.Room(reply.value, callocOk, reallocOk)) then Success else ENOMEM
  {
    var bo;
    r, bo := dev.Alloc(size, reply, code, callocOk, reallocOk);
    if bo.Some? {
      PutBack(old(dev.refs), bo.value, 1);
      PutBack(old(dev.table.Contents()), bo.value.handle, bo.value);
      dev.Free(bo.value, munmapOk);
    }
  }

  lemma PutBack<K, V>(m: map<K, V>, k: K, v: V)
    requires k !in m
    ensures m[k := v] - {k} == m
  {
  }

  // The scan's test is containment in the mapping, for every address, exactly when the end
  // of the mapping does not wrap past the address space.
  lemma HitIsContainmentIffNoWrap(bo: Bo)
    requires 0 < bo.cpuPtr < TWO_TO_64 && 0 < bo.allocSize < TWO_TO_64
    ensures (forall cpu :: bo.Hit(cpu, bo.allocSize) <==> bo.cpuPtr <= cpu < bo.cpuPtr + bo.allocSize)
            <==> bo.cpuPtr + bo.allocSize < TWO_TO_64
  {
    var end := bo.cpuPtr + bo.allocSize;
    if end >= TWO_TO_64 {
      assert Wrap(end, TWO_TO_64) == end - TWO_TO_64;
      assert !bo.Hit(bo.cpuPtr, bo.allocSize);
    }
  }
}
