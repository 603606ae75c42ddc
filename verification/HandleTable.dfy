// The growable array indexed by handle (amdgpu/handle_table.c).
module HandleTables {
  import opened UtilMath
  import opened Wrappers

  class HandleTable<T> {
    const perPage: int                 // sysconf(_SC_PAGESIZE) / sizeof(void*)
    var maxKey: int
    var values: array<Option<T>>       // None is a NULL entry

    ghost predicate Valid()
      reads this
    {
      && 0 <= maxKey == values.Length < TWO_TO_32
      && IsPowerOfTwo(perPage) && perPage < TWO_TO_32
    }

    // The table as a finite map from handles to entries.
    ghost function Contents(): map<int, T>
      reads this, values
    {
      map k | 0 <= k < values.Length && values[k].Some? :: values[k].value
    }

    constructor (perPage: int)
      requires IsPowerOfTwo(perPage) && perPage < TWO_TO_32
      ensures Valid() && fresh(values) && Contents() == map[] && this.perPage == perPage
    {
      this.perPage := perPage;
      maxKey := 0;
      values := new Option<T>[0];
    }

    // handle_table_insert. The rounded size must fit the 32-bit word it is computed in.
    method Insert(key: int, value: T, reallocOk: bool) returns (ret: Errno)
      requires Valid() && 0 <= key < TWO_TO_32
      requires key < maxKey || key + perPage < TWO_TO_32
      modifies this, values
      ensures Valid() && (values == old(values) || fresh(values))
      ensures ret == if key >= old(maxKey) && !reallocOk then ENOMEM else Success
      ensures Contents() == if ret == Success then old(Contents())[key := value] else old(Contents())
      ensures maxKey == if key < old(maxKey) || ret != Success then old(maxKey) else RoundUp(key + 1, perPage)
    {
      if key >= maxKey {
        GrowthCoversKey(key, perPage);
        var grown := Align(Wrap(key + 1, TWO_TO_32), perPage, TWO_TO_32);
        if !reallocOk {
          return ENOMEM;
        }
        Resize(grown);
      }
      values[key] := Some(value);
      return Success;
    }

    // realloc keeps the old entries; memset nulls the new ones.
    method Resize(grown: int)
      requires Valid() && maxKey <= grown < TWO_TO_32
      modifies this
      ensures Valid() && fresh(values) && maxKey == grown
      ensures Contents() == old(Contents())
    {
      var bigger := new Option<T>[grown](_ => None);
      for i := 0 to maxKey
        invariant maxKey == old(maxKey) && values == old(values)
        invariant forall k :: 0 <= k < grown ==> bigger[k] == if k < i then values[k] else None
      {
        bigger[i] := values[i];
      }
      values := bigger;
      maxKey := grown;
    }

    // handle_table_remove
    method Remove(key: int)
      requires Valid() && 0 <= key
      modifies values
      ensures Valid() && Contents() == old(Contents()) - {key}
    {
      if key < maxKey {
        values[key] := None;
      }
    }

    // handle_table_lookup
    method Lookup(key: int) returns (value: Option<T>)
      requires Valid() && 0 <= key
      ensures value == if key in Contents() then Some(Contents()[key]) else None
    {
      if key < maxKey {
        value := values[key];
      } else {
        value := None;
      }
    }

    // handle_table_fini
    method Fini()
      requires Valid()
      modifies this
      ensures Valid() && fresh(values) && Contents() == map[] && maxKey == 0
    {
      maxKey := 0;
      values := new Option<T>[0];
    }
  }

  // The grown table reaches past the key exactly when the rounding does not wrap at 32 bits;
  // otherwise the computed size is 0 and the store that follows would miss the table.
  lemma GrowthCoversKeyIff(key: int, k: nat)
    requires 0 <= key < TWO_TO_32 && k < 32
    ensures Align(Wrap(key + 1, TWO_TO_32), Pow2(k), TWO_TO_32) ==
            if key + Pow2(k) < TWO_TO_32 then RoundUp(key + 1, Pow2(k)) else 0
    ensures key < Align(Wrap(key + 1, TWO_TO_32), Pow2(k), TWO_TO_32) <==> key + Pow2(k) < TWO_TO_32
  {
    Pow2Literals();
    var word := Wrap(key + 1, TWO_TO_32);
    Pow2Monotone(k, 31);
    AlignIsRoundUp(word, k, 32);
    RoundUpIsLeast(key + 1, Pow2(k));
    if key + 1 == TWO_TO_32 {
      assert word == 0;
      DivModUnique(0, Pow2(k), 0, 0);
    }
  }

  lemma GrowthCoversKey(key: int, perPage: int)
    requires 0 <= key < TWO_TO_32 && IsPowerOfTwo(perPage) && perPage < TWO_TO_32
    requires key + perPage < TWO_TO_32
    ensures perPage > 0
    ensures Align(Wrap(key + 1, TWO_TO_32), perPage, TWO_TO_32) == RoundUp(key + 1, perPage)
    ensures key < RoundUp(key + 1, perPage) < TWO_TO_32
  {
    var k: nat :| perPage == Pow2(k);
    Pow2Literals();
    if k >= 32 { Pow2Monotone(32, k); }
    GrowthCoversKeyIff(key, k);
    RoundUpIsLeast(key + 1, perPage);
  }
}
