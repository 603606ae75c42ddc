// The process-wide list of devices (amdgpu/amdgpu_device.c): one device per accelerant,
// reference-counted, on a singly linked list that the last release unlinks from.
module DeviceRegistries {
  import opened Wrappers

  class Accelerant {
    constructor () {}
  }

  class Device {
    const accelerant: Accelerant
    var refcount: int
    var next: Device?

    constructor (accelerant: Accelerant)
      ensures this.accelerant == accelerant && refcount == 1 && next == null
    {
      this.accelerant := accelerant;
      refcount := 1;
      next := null;
    }
  }

  // devs is the list in next-order from head.
  ghost predicate Linked(head: Device?, devs: seq<Device>)
    reads devs
  {
    && (forall i, j :: 0 <= i < j < |devs| ==> devs[i] != devs[j])
    && head == (if devs == [] then null else devs[0])
    && (forall i :: 0 <= i < |devs| - 1 ==> devs[i].next == devs[i + 1])
    && (devs != [] ==> devs[|devs| - 1].next == null)
  }

  lemma OnlyLastEnds(head: Device?, devs: seq<Device>, k: nat)
    requires Linked(head, devs) && k < |devs|
    ensures devs[k].next == null <==> k == |devs| - 1
  {
    assert k < |devs| - 1 ==> devs[k].next == devs[k + 1];
  }

  // The accelerants held are those of the listed devices, and no two devices share one.
  ghost predicate OnePerAccelerant(devs: set<Device>, holds: set<Accelerant>) {
    && (forall d, e :: d in devs && e in devs && d.accelerant == e.accelerant ==> d == e)
    && holds == set d | d in devs :: d.accelerant
  }

  lemma OneLess(devs: set<Device>, holds: set<Accelerant>, dev: Device)
    requires OnePerAccelerant(devs, holds) && dev in devs
    ensures OnePerAccelerant(devs - {dev}, holds - {dev.accelerant})
  {
  }

  lemma OneMore(devs: set<Device>, holds: set<Accelerant>, dev: Device)
    requires OnePerAccelerant(devs, holds) && dev.accelerant !in holds
    ensures OnePerAccelerant(devs + {dev}, holds + {dev.accelerant})
  {
  }

  class Registry {
    var head: Device?              // dev_list
    ghost var devs: seq<Device>    // the list
    ghost var refs: map<Device, int>   // handles clients hold, per listed device
    ghost var holds: set<Accelerant>   // accelerants acquired and not yet released

    ghost predicate Valid()
      reads this, Devs()
    {
      && Linked(head, devs)
      && refs.Keys == Devs()
      && (forall d :: d in refs ==> d.refcount == refs[d] && refs[d] > 0)
      && OnePerAccelerant(Devs(), holds)
    }

    constructor ()
      ensures Valid() && devs == [] && refs == map[] && holds == {}
    {
      head, devs, refs, holds := null, [], map[], {};
    }

    // The two accelerant calls; each asserts that it is not one too many.
    ghost method AcquireReference(acc: Accelerant)
      requires acc !in holds
      modifies this`holds
      ensures holds == old(holds) + {acc}
    {
      holds := holds + {acc};
    }

    ghost method ReleaseReference(acc: Accelerant)
      requires acc in holds
      modifies this`holds
      ensures holds == old(holds) - {acc}
    {
      holds := holds - {acc};
    }

    // The search of amdgpu_device_initialize_haiku.
    method Find(acc: Accelerant) returns (dev: Device?)
      requires Valid()
      ensures dev != null ==> dev in devs && dev.accelerant == acc
      ensures dev == null ==> acc !in holds
    {
      dev := head;
      ghost var i := 0;
      while dev != null
        invariant 0 <= i <= |devs| && dev == if i < |devs| then devs[i] else null
        invariant forall k :: 0 <= k < i ==> devs[k].accelerant != acc
        decreases |devs| - i
      {
        if dev.accelerant == acc {
          return;
        }
        dev := dev.next;
        i := i + 1;
      }
    }

    // amdgpu_device_reference into an empty handle.
    method AddReference(dev: Device)
      requires Valid() && dev in refs
      modifies this`refs, dev`refcount
      ensures Valid() && refs == old(refs)[dev := old(refs)[dev] + 1]
    {
      dev.refcount := dev.refcount + 1;
      refs := refs[dev := refs[dev] + 1];
    }

    // amdgpu_device_initialize_haiku. setup is Success when every check of the fresh device
    // passes, and otherwise the error of the first that does not.
    method Initialize(acc: Accelerant, callocOk: bool, setup: Errno) returns (r: Errno, dev: Device?)
      requires Valid()
      modifies this, Devs()
      ensures Valid()
      ensures dev != null <==> acc in old(holds) || (callocOk && setup == Success)
      ensures r == if dev != null then Success else if callocOk then setup else ENOMEM
      ensures dev == null ==> devs == old(devs) && refs == old(refs) && holds == old(holds)
      ensures acc in old(holds) ==>
                && dev in old(devs) && dev.accelerant == acc
                && devs == old(devs) && refs == old(refs)[dev := old(refs)[dev] + 1] && holds == old(holds)
      ensures acc !in old(holds) && dev != null ==> Registered(acc, dev)
    {
      dev := Find(acc);
      if dev != null {
        AddReference(dev);
        return Success, dev;
      }
      r, dev := SetUp(acc, callocOk, setup);
    }

    // A new device of the accelerant at the front of the list, with one handle out.
    twostate predicate Registered(acc: Accelerant, new dev: Device)
      reads this, dev
    {
      && fresh(dev) && dev.accelerant == acc
      && devs == [dev] + old(devs) && refs == old(refs)[dev := 1] && holds == old(holds) + {acc}
    }

    // The part of the initialisation that follows a fruitless search. A check that fails
    // gives the accelerant back.
    method SetUp(acc: Accelerant, callocOk: bool, setup: Errno) returns (r: Errno, dev: Device?)
      requires Valid() && acc !in holds
      modifies this
      ensures Valid()
      ensures dev != null <==> callocOk && setup == Success
      ensures r == if dev != null then Success else if callocOk then setup else ENOMEM
      ensures dev == null ==> devs == old(devs) && refs == old(refs) && holds == old(holds)
      ensures dev != null ==> Registered(acc, dev)
    {
      if !callocOk {
        return ENOMEM, null;
      }
      dev := new Device(acc);
      AcquireReference(acc);
      if setup != Success {
        ReleaseReference(acc);
        return setup, null;
      }
      OneMore(Devs(), old(holds), dev);
      Link(dev);
      refs := refs[dev := 1];
      return Success, dev;
    }

    method Link(dev: Device)
      requires Linked(head, devs) && dev !in devs
      modifies this`head, this`devs, dev`next
      ensures Linked(head, devs) && devs == [dev] + old(devs)
    {
      dev.next := head;
      head := dev;
      devs := [dev] + devs;
    }

    ghost function Devs(): set<Device>
      reads this
    {
      set d | d in devs
    }

    // The loop of amdgpu_device_free_internal: the link that leads to dev is the list head
    // (prev null) or the next field of prev.
    method FindLink(dev: Device) returns (prev: Device?, ghost k: nat)
      requires Linked(head, devs) && dev in devs
      ensures k < |devs| && devs[k] == dev
      ensures prev == if k == 0 then null else devs[k - 1]
    {
      ghost var p: nat :| p < |devs| && devs[p] == dev;
      prev := null;
      var node := head;
      k := 0;
      while node != dev && node.next != null
        invariant 0 <= k <= p && node == devs[k]
        invariant prev == if k == 0 then null else devs[k - 1]
        decreases |devs| - k
      {
        assert k < |devs| - 1;
        prev := node;
        node := node.next;
        k := k + 1;
      }
      OnlyLastEnds(head, devs, k);
    }

    method Unlink(dev: Device) returns (ghost k: nat)
      requires Linked(head, devs) && dev in devs
      modifies this`head, this`devs, Devs()
      ensures k < |old(devs)| && old(devs)[k] == dev && devs == old(devs)[..k] + old(devs)[k + 1..]
      ensures Linked(head, devs) && Devs() == old(Devs()) - {dev}
      ensures forall d :: d in old(devs) ==> d.refcount == old(d.refcount)
    {
      var prev;
      prev, k := FindLink(dev);
      assert k + 1 < |devs| ==> dev.next == devs[k + 1];
      if prev == null {
        head := dev.next;
      } else {
        prev.next := dev.next;
      }
      devs := devs[..k] + devs[k + 1..];
      forall i | 0 <= i < |devs| - 1 ensures devs[i].next == devs[i + 1] {
        if i >= k {
          assert devs[i] == old(devs)[i + 1] && old(devs)[i + 1] != prev && old(devs[i + 1].next) == old(devs)[i + 2];
        } else if i < k - 1 {
          assert devs[i] == old(devs)[i] && old(devs)[i] != prev && old(devs[i].next) == old(devs)[i + 1];
        } else {
          assert devs[i] == prev && devs[i + 1] == old(devs)[k + 1];
        }
      }
    }

    // amdgpu_device_deinitialize: the last handle unlinks the device and gives its
    // accelerant back.
    method Deinitialize(dev: Device)
      requires Valid() && dev in refs
      modifies this, Devs()
      ensures Valid()
      ensures old(refs[dev]) > 1 ==>
                devs == old(devs) && refs == old(refs)[dev := old(refs[dev]) - 1] && holds == old(holds)
      ensures old(refs[dev]) == 1 ==>
                && (exists k :: 0 <= k < |old(devs)| && old(devs)[k] == dev
                                && devs == old(devs)[..k] + old(devs)[k + 1..])
                && refs == old(refs) - {dev} && holds == old(holds) - {dev.accelerant}
    {
      dev.refcount := dev.refcount - 1;
      if dev.refcount != 0 {
        refs := refs[dev := refs[dev] - 1];
        return;
      }
      assert Linked(head, devs);
      FreeInternal(dev);
    }

    // amdgpu_device_free_internal
    method FreeInternal(dev: Device)
      requires Linked(head, devs) && refs.Keys == Devs() && OnePerAccelerant(Devs(), holds)
      requires dev in refs && forall d :: d in refs && d != dev ==> d.refcount == refs[d] && refs[d] > 0
      modifies this, Devs()
      ensures Valid()
      ensures exists k :: 0 <= k < |old(devs)| && old(devs)[k] == dev && devs == old(devs)[..k] + old(devs)[k + 1..]
      ensures refs == old(refs) - {dev} && holds == old(holds) - {dev.accelerant}
    {
      OneLess(Devs(), holds, dev);
      ghost var k := Unlink(dev);
      refs := refs - {dev};
      ReleaseReference(dev.accelerant);
    }
  }
}
