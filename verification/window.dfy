/**
 * The two registries of the window layer: `Arguments`, which maps a
 * native window handle to the pair of pointers its message callback
 * needs, and `HWND_constainer`, which hands out integer ids for window
 * handles.  Handles and pointers are opaque values with a null value.
 */
module Window {
  import opened Assoc

  /** An opaque native window handle; `NullHwnd` is `NULL`. */
  datatype Hwnd = NullHwnd | Hwnd(raw: nat)

  /** An opaque `void*`; `NullPtr` is `NULL`. */
  datatype Ptr = NullPtr | Ptr(addr: nat)

  /** The `args` pair: the owning window object and the user argument. */
  datatype Args = Args(window: Ptr, arg: Ptr)

  /** `args{NULL, NULL}`, what a lookup of an unregistered handle yields. */
  const NoArgs: Args := Args(NullPtr, NullPtr)

  /** The callback-argument registry: a list of `(handle, args)` entries, in insertion order. */
  class Arguments {
    var buffer: seq<(Hwnd, Args)>

    constructor ()
      ensures buffer == []
    {
      buffer := [];
    }

    /**
     * `add`: appends the entry at the end; earlier entries are untouched.
     * A handle registered earlier keeps its earlier args, since lookups
     * take the first match.
     */
    method Add(hwnd: Hwnd, window: Ptr, arg: Ptr)
      modifies this
      ensures buffer == old(buffer) + [(hwnd, Args(window, arg))]
      ensures Get(hwnd) == if HasKey(old(buffer), hwnd) then old(Get(hwnd)) else Args(window, arg)
      ensures forall h :: h != hwnd ==> Get(h) == old(Get(h))
    {
      forall h {
        LookupAppend(buffer, hwnd, Args(window, arg), h, NoArgs);
      }
      buffer := buffer + [(hwnd, Args(window, arg))];
    }

    /** `get`: the args of the first entry for `hwnd`, or `NoArgs` when none has it. */
    function Get(hwnd: Hwnd): (r: Args)
      reads this
      ensures !HasKey(buffer, hwnd) ==> r == NoArgs
      ensures HasKey(buffer, hwnd) ==>
        exists j :: 0 <= j < |buffer| && buffer[j].0 == hwnd && r == buffer[j].1 &&
          forall j' :: 0 <= j' < j ==> buffer[j'].0 != hwnd
    {
      Lookup(buffer, hwnd, NoArgs)
    }

    /**
     * `remove`: erases the first entry for `hwnd`, keeping the order of the
     * rest; a handle without an entry leaves the buffer as it is.
     */
    method Remove(hwnd: Hwnd)
      modifies this
      ensures buffer == EraseFirst(old(buffer), hwnd)
      ensures forall h :: h != hwnd ==> Get(h) == old(Get(h))
    {
      forall h | h != hwnd
        ensures Lookup(EraseFirst(buffer, hwnd), h, NoArgs) == Lookup(buffer, h, NoArgs)
      {
        LookupEraseOther(buffer, hwnd, h, NoArgs);
      }
      buffer := EraseFirst(buffer, hwnd);
    }
  }

  /** Every id in `entries` is in `[0, bound)`, and the ids strictly increase along the list. */
  predicate IdsBelow(entries: seq<(int, Hwnd)>, bound: int) {
    (forall j :: 0 <= j < |entries| ==> 0 <= entries[j].0 < bound) &&
    (forall j, j' :: 0 <= j < j' < |entries| ==> entries[j].0 < entries[j'].0)
  }

  /** Strictly increasing ids drawn from `[0, bound)` number at most `bound`. */
  lemma {:induction false} IdsBelowCount(entries: seq<(int, Hwnd)>, bound: int)
    ensures 0 <= bound && IdsBelow(entries, bound) ==> |entries| <= bound
    decreases |entries|
  {
    if entries != [] && 0 <= bound && IdsBelow(entries, bound) {
      var n := |entries| - 1;
      var init := entries[..n];
      assert IdsBelow(init, entries[n].0) by {
        assert forall j :: 0 <= j < n ==> init[j] == entries[j];
      }
      IdsBelowCount(init, entries[n].0);
      assert entries[n].0 < bound;
    }
  }

  /** Ids in strictly increasing order are unique keys. */
  lemma IdsUnique(entries: seq<(int, Hwnd)>, bound: int)
    requires IdsBelow(entries, bound)
    ensures UniqueKeys(entries)
  {
  }

  /**
   * Storing a handle under the next id keeps the ids increasing and below
   * the advanced generator; the new id was absent, now yields the handle,
   * and every other id yields what it did.
   */
  lemma AddFacts(handles: seq<(int, Hwnd)>, genId: int, handle: Hwnd)
    requires genId >= 0 && IdsBelow(handles, genId)
    ensures !HasKey(handles, genId)
    ensures IdsBelow(handles + [(genId, handle)], genId + 1)
    ensures Lookup(handles + [(genId, handle)], genId, NullHwnd) == handle
    ensures forall id :: id != genId ==>
      Lookup(handles + [(genId, handle)], id, NullHwnd) == Lookup(handles, id, NullHwnd)
  {
    var grown := handles + [(genId, handle)];
    assert forall j :: 0 <= j < |handles| ==> grown[j] == handles[j];
    LookupAppend(handles, genId, handle, genId, NullHwnd);
    forall id | id != genId
      ensures Lookup(grown, id, NullHwnd) == Lookup(handles, id, NullHwnd)
    {
      LookupAppend(handles, genId, handle, id, NullHwnd);
    }
  }

  /**
   * Erasing a present id keeps the ids increasing and below the generator;
   * the id then yields nothing, every other id yields what it did, and one
   * entry fewer remains.
   */
  lemma RemoveFacts(handles: seq<(int, Hwnd)>, genId: int, id: int)
    requires IdsBelow(handles, genId) && HasKey(handles, id)
    ensures IdsBelow(EraseFirst(handles, id), genId)
    ensures Lookup(EraseFirst(handles, id), id, NullHwnd) == NullHwnd
    ensures forall id' :: id' != id ==>
      Lookup(EraseFirst(handles, id), id', NullHwnd) == Lookup(handles, id', NullHwnd)
    ensures |EraseFirst(handles, id)| == |handles| - 1
  {
    IdsUnique(handles, genId);
    EraseFirstUnique(handles, id);
    EraseFirstShape(handles, id);
    forall id' | id' != id
      ensures Lookup(EraseFirst(handles, id), id', NullHwnd) == Lookup(handles, id', NullHwnd)
    {
      LookupEraseOther(handles, id, id', NullHwnd);
    }
    var erased := EraseFirst(handles, id);
    var i := Find(handles, id);
    forall j, j' | 0 <= j < j' < |erased|
      ensures erased[j].0 < erased[j'].0
    {
      var a := if j < i then j else j + 1;
      var b := if j' < i then j' else j' + 1;
      assert a < b && erased[j] == handles[a] && erased[j'] == handles[b];
    }
    forall j | 0 <= j < |erased|
      ensures 0 <= erased[j].0 < genId
    {
      var a := if j < i then j else j + 1;
      assert erased[j] == handles[a];
    }
  }

  /** The window-handle table: `genId` is the next id to hand out. */
  class HandleContainer {
    var genId: int
    var handles: seq<(int, Hwnd)>

    /** Every stored id was handed out earlier, so it is below `genId`, and ids appear in the order issued. */
    ghost predicate Valid()
      reads this
    {
      genId >= 0 && IdsBelow(handles, genId)
    }

    constructor ()
      ensures Valid() && genId == 0 && handles == []
    {
      genId := 0;
      handles := [];
    }

    /**
     * `operator[]`: the handle stored under `id`, or `NullHwnd` when no
     * entry has that id.  The table is only read.
     */
    function At(id: int): (h: Hwnd)
      reads this
      ensures !HasKey(handles, id) ==> h == NullHwnd
      ensures HasKey(handles, id) ==>
        exists j :: 0 <= j < |handles| && handles[j].0 == id && h == handles[j].1 &&
          forall j' :: 0 <= j' < j ==> handles[j'].0 != id
    {
      Lookup(handles, id, NullHwnd)
    }

    /** `size`: the number of stored handles, which never exceeds the number of ids issued. */
    function Size(): (n: int)
      reads this
      ensures n == |handles|
      ensures Valid() ==> 0 <= n <= genId
    {
      IdsBelowCount(handles, genId);
      |handles|
    }

    /**
     * `add`: stores `handle` under the current `genId` and returns that id,
     * then advances `genId`.  The new id is above every id stored so far,
     * so it is fresh: every other id keeps its handle.
     */
    method Add(handle: Hwnd) returns (id: int)
      requires Valid()
      modifies this
      ensures Valid()
      ensures id == old(genId) && genId == old(genId) + 1
      ensures handles == old(handles) + [(id, handle)]
      ensures forall j :: 0 <= j < |old(handles)| ==> old(handles)[j].0 < id
      ensures At(id) == handle
      ensures forall id' :: id' != id ==> At(id') == old(At(id'))
      ensures Size() == old(Size()) + 1
    {
      id := genId;
      AddFacts(handles, genId, handle);
      handles := handles + [(id, handle)];
      genId := genId + 1;
    }

    /**
     * `remove`: the id must be present (the source dereferences the search
     * result unchecked).  Unregisters the handle's callback arguments,
     * destroys the window (an external call, not modelled) and erases the
     * entry.  Afterwards `id` maps to nothing and every other id keeps its
     * handle.
     */
    method Remove(id: int, arguments: Arguments)
      requires Valid() && HasKey(handles, id)
      modifies this, arguments
      ensures Valid() && genId == old(genId)
      ensures handles == EraseFirst(old(handles), id)
      ensures arguments.buffer == EraseFirst(old(arguments.buffer), old(At(id)))
      ensures At(id) == NullHwnd
      ensures forall id' :: id' != id ==> At(id') == old(At(id'))
      ensures Size() == old(Size()) - 1
    {
      var handle := handles[Find(handles, id)].1;
      arguments.Remove(handle);
      RemoveFacts(handles, genId, id);
      handles := EraseFirst(handles, id);
    }
  }
}
