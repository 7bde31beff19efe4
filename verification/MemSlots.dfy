// strsed's static array of memory slots, updated by its loops.
module MemSlots {
  import opened SlotStore
  import opened SlotSafety

  class MemSlots {
    const slots: array<Slot>
    // malloc's supply of blocks.
    var next: Block
    ghost var heap: Heap

    ghost function State(): Store
      reads this, slots
    {
      Store(slots[..], heap)
    }

    ghost predicate Valid()
      reads this, slots
    {
      Sound(State()) && heap.next == next
    }

    // mem_init
    constructor ()
      ensures Valid() && fresh(slots) && State() == INITIAL
    {
      slots := new Slot[MEM_SLOTS](_ => Slot(NULL, 0, false));
      next := 1;
      heap := INITIAL.heap;
      new;
      assert slots[..] == INITIAL.slots;
    }

    method Allocation(size: nat) returns (b: Block)
      requires heap.next == next
      modifies `next, `heap
      ensures b == old(next) && heap == Malloc(old(heap), size) && heap.next == next
    {
      b := next;
      next := next + 1;
      heap := Malloc(heap, size);
    }

    // free: the block must be live, which rules out freeing twice and freeing what the caller owns.
    method FreeBlock(b: Block)
      requires b == NULL || (b in heap.live && b !in heap.handed)
      modifies `heap
      ensures heap == Free(old(heap), b)
    {
      heap := Free(heap, b);
    }

    method MemFind(size: nat) returns (i: int)
      requires slots.Length == MEM_SLOTS
      ensures var first := FirstFit(slots[..], size, 0);
        i == if first < MEM_SLOTS then first else -1
    {
      i := 0;
      while i < slots.Length
        invariant 0 <= i <= slots.Length
        invariant FirstFit(slots[..], size, 0) == FirstFit(slots[..], size, i)
      {
        if !slots[i].used && slots[i].s != NULL && slots[i].size >= size {
          return;
        }
        i := i + 1;
      }
      i := -1;
    }

    method MemSave(x: nat)
      requires Valid() && x < MEM_SLOTS && slots[x].s != NULL
      modifies slots, `heap
      ensures State() == Save(old(State()), x) && heap.next == next
    {
      hide Held, NoLeak, Tracked;
      ghost var before := State();
      for i := 0 to MEM_SLOTS
        invariant State() == before
        invariant FirstEmpty(before.slots, 0) == FirstEmpty(before.slots, i)
      {
        if !slots[i].used && slots[i].s == NULL {
          slots[i] := slots[x].(used := false);
          return;
        }
      }
      var small, smallVal := -1, SMALL_LIMIT;
      for i := 0 to MEM_SLOTS
        invariant State() == before
        invariant small == Smallest(before.slots, slots[x].size, i)
        invariant smallVal == if small == -1 then SMALL_LIMIT else slots[small].size
      {
        if !slots[i].used && slots[i].size < slots[x].size && slots[i].size < smallVal {
          smallVal := slots[i].size;
          small := i;
        }
      }
      if small != -1 {
        SlotIsLive(before, small);
        FreeBlock(slots[small].s);
        slots[small] := slots[x].(used := false);
      } else {
        SlotIsLive(before, x);
        FreeBlock(slots[x].s);
      }
    }

    // The malloc at the end of mem.
    method AllocateSlot(who: nat, size: nat)
      requires slots.Length == MEM_SLOTS && who < MEM_SLOTS && heap.next == next
      modifies slots, `next, `heap
      ensures State() == Allocate(old(State()), who, size) && heap.next == next
    {
      var b := Allocation(size);
      slots[who] := slots[who].(s := b);
      slots[who] := slots[who].(size := size);
      slots[who] := slots[who].(used := true);
    }

    // Gets size bytes for slot who: reused, recycled from another slot, or newly allocated.
    method Mem(who: int, size: nat) returns (b: Block)
      requires Valid()
      modifies slots, `next, `heap
      ensures Valid() && State() == Step(old(State()), MemCall(who, size))
      ensures b == if 0 <= who < MEM_SLOTS then slots[who].s else NULL
      ensures 0 <= who < MEM_SLOTS ==> b in heap.live && heap.live[b] >= size && b !in heap.handed
    {
      hide Held, NoLeak, Tracked, Save, Release, SlotStore.MoreSpace, Allocate;
      if who < 0 || who >= MEM_SLOTS {
        return NULL;
      }
      MemKeeps(State(), who, size);
      SlotIsLive(SlotStore.Mem(State(), who, size), who);
      if slots[who].used {
        if slots[who].size >= size {
          return slots[who].s;
        } else {
          MemSave(who);
        }
      } else {
        if slots[who].s != NULL && slots[who].size >= size {
          slots[who] := slots[who].(used := true);
          return slots[who].s;
        }
        if slots[who].s != NULL {
          MemSave(who);
        } else {
          var x := MemFind(size);
          if x != -1 {
            TakeFrom(who, x);
            return slots[who].s;
          }
        }
      }
      AllocateSlot(who, size);
      b := slots[who].s;
    }

    method TakeFrom(who: nat, x: nat)
      requires slots.Length == MEM_SLOTS && who < MEM_SLOTS && x < MEM_SLOTS && who != x
      modifies slots
      ensures State() == Steal(old(State()), who, x)
    {
      slots[who] := slots[who].(s := slots[x].s);
      slots[who] := slots[who].(size := slots[x].size);
      slots[who] := slots[who].(used := true);
      slots[x] := slots[x].(s := NULL);
    }

    // Marks every slot unused and gives up the block that is returned to the caller.
    method MemFree(except: Block)
      requires Valid()
      modifies slots, `heap
      ensures Valid() && State() == Step(old(State()), FreeCall(except))
    {
      hide Held, NoLeak, Tracked;
      ghost var before := State();
      for i := 0 to MEM_SLOTS
        invariant heap == before.heap
        invariant forall k :: 0 <= k < i ==> slots[k] == Released(before.slots[k], except)
        invariant forall k :: i <= k < MEM_SLOTS ==> slots[k] == before.slots[k]
      {
        slots[i] := slots[i].(used := false);
        if slots[i].s == except {
          slots[i] := slots[i].(s := NULL);
          slots[i] := slots[i].(size := 0);
        }
      }
      heap := Release(before, except).heap;
      assert slots[..] == Release(before, except).slots;
      ReleaseKeeps(before, except);
    }

    // Grows the new string with realloc, which may move it.
    method MoreSpace(size: nat, moves: bool)
      requires Valid() && slots[MEM_NEWSTR].used
      modifies slots, `next, `heap
      ensures Valid() && State() == Step(old(State()), MoreSpaceCall(size, moves))
    {
      hide Held, NoLeak, Tracked;
      ghost var before := State();
      MoreSpaceKeeps(before, size, moves);
      SlotIsLive(State(), MEM_NEWSTR);
      var b := slots[MEM_NEWSTR].s;
      if moves {
        FreeBlock(b);
        b := Allocation(size);
      } else {
        heap := heap.(live := heap.live[b := size]);
      }
      slots[MEM_NEWSTR] := slots[MEM_NEWSTR].(s := b);
      slots[MEM_NEWSTR] := slots[MEM_NEWSTR].(size := size);
      assert slots[..] == before.slots[MEM_NEWSTR := Slot(b, size, true)];
    }
  }

  lemma SlotIsLive(st: Store, i: nat)
    requires Sound(st) && i < MEM_SLOTS
    ensures st.slots[i].s == NULL || (st.slots[i].s in st.heap.live && st.slots[i].s !in st.heap.handed)
    ensures st.slots[i].s != NULL ==> st.heap.live[st.slots[i].s] == st.slots[i].size
  {
  }
}
