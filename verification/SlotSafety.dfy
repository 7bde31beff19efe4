// What every call of the slot allocator keeps, and the fate of every block over whole runs.
module SlotSafety {
  import opened SlotStore

  // Slots that hold a block hold different live blocks of exactly the recorded size.
  predicate Held(slots: seq<Slot>, h: Heap) {
    && (forall i :: 0 <= i < |slots| && slots[i].s != NULL ==>
          slots[i].s in h.live && h.live[slots[i].s] == slots[i].size && slots[i].s !in h.handed)
    && (forall i, j :: 0 <= i < j < |slots| && slots[i].s != NULL ==> slots[i].s != slots[j].s)
  }

  // A live block is in a slot or was handed over: nothing leaks.
  predicate NoLeak(slots: seq<Slot>, h: Heap) {
    forall b :: b in h.live ==> b in h.handed || InSlot(slots, b)
  }

  // Every block that malloc gave out is either live or freed, and freed once only.
  predicate Tracked(h: Heap) {
    && h.next > NULL && NULL !in h.live
    && (forall b :: NULL < b < h.next ==> b in h.live || b in h.freed)
    && (forall b :: b in h.live ==> b < h.next && b !in h.freed)
    && (forall b :: b in h.freed ==> NULL < b < h.next)
    && (forall i, j :: 0 <= i < j < |h.freed| ==> h.freed[i] != h.freed[j])
    && (forall b :: b in h.handed ==> b in h.live)
  }

  predicate Sound(st: Store) {
    && |st.slots| == MEM_SLOTS
    && (forall i :: 0 <= i < MEM_SLOTS && st.slots[i].used ==> st.slots[i].s != NULL)
    && Held(st.slots, st.heap)
    && NoLeak(st.slots, st.heap)
    && Tracked(st.heap)
  }

  // The store after slot x gave up its block.
  function Vacated(st: Store, x: nat): Store
    requires x < |st.slots|
  {
    st.(slots := st.slots[x := Slot(NULL, 0, false)])
  }

  // In-use slots other than who are left alone.
  predicate OthersKept(a: Store, b: Store, who: nat) {
    && |a.slots| == |b.slots|
    && forall i :: 0 <= i < |a.slots| && i != who && a.slots[i].used ==> b.slots[i] == a.slots[i]
  }

  lemma FreeKeepsTracked(h: Heap, b: Block)
    requires Tracked(h) && b in h.live && b !in h.handed
    ensures Tracked(Free(h, b))
  {
  }

  lemma MallocKeepsTracked(h: Heap, size: nat)
    requires Tracked(h)
    ensures Tracked(Malloc(h, size)) && h.next !in h.live && h.next != NULL
  {
  }

  // Moving the block of x to a slot that holds none.
  lemma MoveKeeps(st: Store, x: nat, i: nat)
    requires Sound(st) && x < MEM_SLOTS && i < MEM_SLOTS && i != x && st.slots[i].s == NULL
    ensures Sound(Vacated(st.(slots := st.slots[i := st.slots[x].(used := false)]), x))
  {
    var after := st.slots[i := st.slots[x].(used := false)][x := Slot(NULL, 0, false)];
    forall b | b in st.heap.live
      ensures b in st.heap.handed || InSlot(after, b)
    {
      if InSlot(st.slots, b) {
        var k :| 0 <= k < MEM_SLOTS && st.slots[k].s == b;
        assert after[if k == x then i else k].s == b;
      }
    }
  }

  // Freeing the block of an unused slot and forgetting the pointer.
  lemma DropKeeps(st: Store, i: nat)
    requires Sound(st) && i < MEM_SLOTS && st.slots[i].s != NULL
    ensures Sound(Vacated(st.(heap := Free(st.heap, st.slots[i].s)), i))
  {
    hide Tracked;
    var b := st.slots[i].s;
    assert Tracked(Free(st.heap, b)) by { FreeKeepsTracked(st.heap, b); }
    var after := st.slots[i := Slot(NULL, 0, false)];
    forall c | c in st.heap.live && c != b
      ensures c in st.heap.handed || InSlot(after, c)
    {
      if InSlot(st.slots, c) {
        var k :| 0 <= k < MEM_SLOTS && st.slots[k].s == c;
        assert after[k].s == c;
      }
    }
  }

  // A fresh block fills a slot that holds none.
  lemma AllocateKeeps(st: Store, who: nat, size: nat)
    requires Sound(st) && who < MEM_SLOTS && st.slots[who].s == NULL
    ensures Sound(Allocate(st, who, size))
  {
    hide Tracked;
    assert st.heap.next !in st.heap.live && st.heap.next != NULL by { MallocKeepsTracked(st.heap, size); }
    assert Tracked(Malloc(st.heap, size)) by { MallocKeepsTracked(st.heap, size); }
    assert st.heap.next !in st.heap.handed by { HandedIsLive(st.heap); }
    var after := Allocate(st, who, size).slots;
    assert after[who].s == st.heap.next;
    forall b | b in st.heap.live
      ensures b in st.heap.handed || InSlot(after, b)
    {
      if InSlot(st.slots, b) {
        var k :| 0 <= k < MEM_SLOTS && st.slots[k].s == b;
        assert NULL !in st.heap.live by { HandedIsLive(st.heap); }
        assert after[k].s == b;
      }
    }
  }

  lemma HandedIsLive(h: Heap)
    requires Tracked(h)
    ensures NULL !in h.live && forall b :: b in h.handed ==> b in h.live
  {
  }

  // Soundness depends on the blocks in the slots, not on their flags or on the sizes of empty slots.
  lemma SameBlocksKeep(a: Store, b: Store)
    requires Sound(a) && b.heap == a.heap && |b.slots| == MEM_SLOTS
    requires forall i :: 0 <= i < MEM_SLOTS ==> b.slots[i].s == a.slots[i].s
    requires forall i :: 0 <= i < MEM_SLOTS && a.slots[i].s != NULL ==> b.slots[i].size == a.slots[i].size
    requires forall i :: 0 <= i < MEM_SLOTS && b.slots[i].used ==> b.slots[i].s != NULL
    ensures Sound(b)
  {
    forall c | c in a.heap.live
      ensures c in a.heap.handed || InSlot(b.slots, c)
    {
      if InSlot(a.slots, c) {
        var k :| 0 <= k < MEM_SLOTS && a.slots[k].s == c;
        assert b.slots[k].s == c;
      }
    }
  }

  // mem_save: the block moves or something unused is freed; slot x is left to be overwritten.
  lemma SaveKeeps(st: Store, x: nat)
    requires Sound(st) && x < MEM_SLOTS && st.slots[x].s != NULL
    ensures |Save(st, x).slots| == MEM_SLOTS && Sound(Vacated(Save(st, x), x))
    ensures OthersKept(st, Save(st, x), x)
    ensures Save(st, x).heap.handed == st.heap.handed && Save(st, x).heap.next == st.heap.next
  {
    hide Held, NoLeak, Tracked;
    var block := st.slots[x].(used := false);
    var empty := FirstEmpty(st.slots, 0);
    if empty < MEM_SLOTS {
      MoveKeeps(st, x, empty);
    } else {
      var small := Smallest(st.slots, block.size, MEM_SLOTS);
      if small != -1 {
        assert !Empty(st.slots[small]);
        DropKeeps(st, small);
        var dropped := Vacated(st.(heap := Free(st.heap, st.slots[small].s)), small);
        MoveKeeps(dropped, x, small);
        assert dropped.slots[small := block] == st.slots[small := block];
      } else {
        DropKeeps(st, x);
      }
    }
  }

  // mem: the slot gets a live block of its own that is large enough; no other block in use is touched.
  lemma MemKeeps(st: Store, who: nat, size: nat)
    requires Sound(st) && who < MEM_SLOTS
    ensures Sound(Mem(st, who, size)) && OthersKept(st, Mem(st, who, size), who)
    ensures var slot := Mem(st, who, size).slots[who];
      slot.used && slot.s != NULL && slot.size >= size
    ensures Mem(st, who, size).heap.handed == st.heap.handed
  {
    hide Held, NoLeak, Tracked, Save;
    var slot := st.slots[who];
    if slot.s != NULL {
      if slot.size < size {
        SaveKeeps(st, who);
        SaveThenAllocate(st, who, size);
      } else if !slot.used {
        SameBlocksKeep(st, st.(slots := st.slots[who := slot.(used := true)]));
      }
    } else {
      var x := FirstFit(st.slots, size, 0);
      if x < MEM_SLOTS {
        StealKeeps(st, who, x);
      } else {
        AllocateKeeps(st, who, size);
      }
    }
  }

  lemma SaveThenAllocate(st: Store, who: nat, size: nat)
    requires Sound(st) && who < MEM_SLOTS && st.slots[who].s != NULL
    ensures |Save(st, who).slots| == MEM_SLOTS && Sound(Allocate(Save(st, who), who, size))
  {
    hide Held, NoLeak, Tracked, Save;
    SaveKeeps(st, who);
    var saved := Save(st, who);
    AllocateKeeps(Vacated(saved, who), who, size);
    assert Allocate(Vacated(saved, who), who, size) == Allocate(saved, who, size);
  }

  lemma StealKeeps(st: Store, who: nat, x: nat)
    requires Sound(st) && who < MEM_SLOTS && x < MEM_SLOTS
    requires st.slots[who].s == NULL && !st.slots[x].used && st.slots[x].s != NULL
    ensures Sound(Steal(st, who, x)) && OthersKept(st, Steal(st, who, x), who)
  {
    hide Held, NoLeak, Tracked;
    MoveKeeps(st, x, who);
    SameBlocksKeep(Vacated(st.(slots := st.slots[who := st.slots[x].(used := false)]), x), Steal(st, who, x));
  }

  // malloc is called exactly when neither the slot's own allocation nor, for an empty slot, an unused one is large enough.
  lemma MallocsExactly(st: Store, who: nat, size: nat)
    requires Sound(st) && who < MEM_SLOTS
    ensures Mem(st, who, size).heap.next == st.heap.next <==>
      if st.slots[who].s != NULL then st.slots[who].size >= size
      else exists x :: 0 <= x < MEM_SLOTS && Fits(st.slots[x], size)
  {
    hide Held, NoLeak, Tracked, Save;
    if st.slots[who].s != NULL {
      if st.slots[who].size < size {
        SaveKeeps(st, who);
      }
    } else if exists x :: 0 <= x < MEM_SLOTS && Fits(st.slots[x], size) {
      assert FirstFit(st.slots, size, 0) < MEM_SLOTS;
    }
  }

  // An unused slot with a block that is large enough.
  predicate HasRoom(slot: Slot, size: nat) {
    !slot.used && slot.s != 0 && size <= slot.size
  }

  predicate FirstWithRoom(slots: seq<Slot>, size: nat, x: int) {
    0 <= x < |slots| && HasRoom(slots[x], size) && forall y :: 0 <= y < x ==> !HasRoom(slots[y], size)
  }

  // Which block mem returns: the slot's own, the first unused one that is large enough if the slot has none, or a new
  // one of the asked size.
  lemma MemReturns(st: Store, who: nat, size: nat)
    requires Sound(st) && who < 7
    ensures var after := Mem(st, who, size);
      && |after.slots| == 7
      && (st.slots[who].s != 0 && size <= st.slots[who].size ==>
            after == st.(slots := st.slots[who := st.slots[who].(used := true)]))
      && (st.slots[who].s != 0 && size > st.slots[who].size ==> after.slots[who] == Slot(st.heap.next, size, true))
      && (st.slots[who].s == 0 && (forall x :: 0 <= x < 7 ==> !HasRoom(st.slots[x], size)) ==>
            after == Store(st.slots[who := Slot(st.heap.next, size, true)], Malloc(st.heap, size)))
      && forall x :: st.slots[who].s == 0 && FirstWithRoom(st.slots, size, x) ==>
           && after.heap == st.heap && after.slots[who] == st.slots[x].(used := true)
           && (x != who ==> after.slots[x].s == 0)
  {
    hide Held, NoLeak, Tracked, Save;
    if st.slots[who].s != 0 && size > st.slots[who].size {
      SaveKeeps(st, who);
    } else if st.slots[who].s == 0 {
      var f := FirstFit(st.slots, size, 0);
      assert forall x :: 0 <= x < 7 ==> (HasRoom(st.slots[x], size) <==> Fits(st.slots[x], size));
    }
  }

  predicate Vacant(slot: Slot) {
    !slot.used && slot.s == 0
  }

  predicate FirstVacant(slots: seq<Slot>, e: int) {
    0 <= e < |slots| && Vacant(slots[e]) && forall y :: 0 <= y < e ==> !Vacant(slots[y])
  }

  // Where mem_save puts the block of slot x: into the first unused slot without one, else over the block of the first of
  // the smallest unused slots that are smaller (and below 32767), else nowhere.
  lemma SavePuts(st: Store, x: nat)
    requires Sound(st) && x < 7 && st.slots[x].s != 0
    ensures var block, after := st.slots[x].(used := false), Save(st, x);
      && (forall e :: FirstVacant(st.slots, e) ==> after == st.(slots := st.slots[e := block]))
      && ((forall y :: 0 <= y < 7 ==> !Vacant(st.slots[y])) ==>
            && (forall f :: Cheapest(st.slots, block.size, f) ==>
                  after == Store(st.slots[f := block], Free(st.heap, st.slots[f].s)))
            && ((forall y :: 0 <= y < 7 ==> !Cheaper(st.slots[y], block.size)) ==>
                  after == st.(heap := Free(st.heap, block.s))))
  {
    hide Held, NoLeak, Tracked;
    var e := FirstEmpty(st.slots, 0);
    var size := st.slots[x].size;
    assert forall y :: 0 <= y < 7 ==> (Cheaper(st.slots[y], size) <==> Replaceable(st.slots[y], size));
    var small := Smallest(st.slots, size, 7);
  }

  predicate Cheaper(slot: Slot, size: nat) {
    !slot.used && slot.size < size && slot.size < 32767
  }

  // The first of the smallest slots that the block may replace.
  predicate Cheapest(slots: seq<Slot>, size: nat, f: int) {
    && 0 <= f < |slots| && Cheaper(slots[f], size)
    && forall y :: 0 <= y < |slots| && Cheaper(slots[y], size) ==>
         slots[f].size <= slots[y].size && (y < f ==> slots[f].size < slots[y].size)
  }

  // mem_free slot by slot.
  lemma ReleaseSlot(st: Store, except: Block, i: nat)
    requires i < |st.slots|
    ensures |Release(st, except).slots| == |st.slots|
    ensures Release(st, except).slots[i] ==
      if st.slots[i].s == except then Slot(0, 0, false) else Slot(st.slots[i].s, st.slots[i].size, false)
  {
  }

  // Saving frees something exactly when every unused slot holds an allocation, and then a smallest block: no unused
  // slot (below the limit) keeps a smaller one, and the block that was to be saved is lost only if it is no larger.
  lemma SaveFreesSmallest(st: Store, x: nat)
    requires Sound(st) && x < MEM_SLOTS && st.slots[x].s != NULL
    ensures Save(st, x).heap == st.heap <==> exists i :: 0 <= i < MEM_SLOTS && Empty(st.slots[i])
    ensures Save(st, x).heap != st.heap ==>
      exists f :: 0 <= f < MEM_SLOTS && Save(st, x).heap == Free(st.heap, st.slots[f].s)
        && (f == x || !st.slots[f].used) && IsSmallestFor(st.slots, f, x)
  {
    hide Held, NoLeak, Tracked;
    var slots, size := st.slots, st.slots[x].size;
    if FirstEmpty(slots, 0) == MEM_SLOTS {
      var small := Smallest(slots, size, MEM_SLOTS);
      var f: nat := if small != -1 then small else x;
      assert !Empty(slots[f]);
      assert Save(st, x).heap == Free(st.heap, slots[f].s) && Save(st, x).heap != st.heap;
      assert IsSmallestFor(slots, f, x);
    }
  }

  predicate IsSmallestFor(slots: seq<Slot>, f: nat, x: nat)
    requires f < |slots| && x < |slots|
  {
    && slots[f].size <= slots[x].size
    && forall i :: 0 <= i < |slots| && !slots[i].used && slots[i].size < 32767 ==> slots[f].size <= slots[i].size
  }

  // mem_free: everything becomes reusable, nothing is freed, and the returned block is out of the slots' reach.
  lemma ReleaseKeeps(st: Store, except: Block)
    requires Sound(st)
    ensures Sound(Release(st, except))
    ensures forall i :: 0 <= i < MEM_SLOTS ==> !Release(st, except).slots[i].used
    ensures except != NULL ==> !InSlot(Release(st, except).slots, except)
    ensures except != NULL && InSlot(st.slots, except) ==> except in Release(st, except).heap.handed
    ensures Release(st, except).heap.live == st.heap.live && Release(st, except).heap.freed == st.heap.freed
  {
    var after := Release(st, except);
    forall b | b in st.heap.live
      ensures b in after.heap.handed || InSlot(after.slots, b)
    {
      if InSlot(st.slots, b) && b != except {
        var k :| 0 <= k < MEM_SLOTS && st.slots[k].s == b;
        assert after.slots[k].s == b;
      }
    }
  }

  lemma MoreSpaceKeeps(st: Store, size: nat, moves: bool)
    requires Sound(st) && st.slots[MEM_NEWSTR].used
    ensures Sound(MoreSpace(st, size, moves)) && OthersKept(st, MoreSpace(st, size, moves), MEM_NEWSTR)
    ensures MoreSpace(st, size, moves).slots[4].size == size && OthersKept(st, MoreSpace(st, size, moves), 4)
  {
    var freed := st.(heap := Free(st.heap, st.slots[MEM_NEWSTR].s));
    if moves {
      hide Held, NoLeak, Tracked;
      DropKeeps(st, MEM_NEWSTR);
      AllocateKeeps(Vacated(freed, MEM_NEWSTR), MEM_NEWSTR, size);
      assert Allocate(Vacated(freed, MEM_NEWSTR), MEM_NEWSTR, size) == Allocate(freed, MEM_NEWSTR, size);
    } else {
      GrowInPlaceKeeps(st, size);
    }
  }

  lemma GrowInPlaceKeeps(st: Store, size: nat)
    requires Sound(st) && st.slots[MEM_NEWSTR].used
    ensures Sound(MoreSpace(st, size, false))
  {
    var after := MoreSpace(st, size, false);
    forall b | b in st.heap.live
      ensures b in st.heap.handed || InSlot(after.slots, b)
    {
      if InSlot(st.slots, b) {
        var k :| 0 <= k < MEM_SLOTS && st.slots[k].s == b;
        assert after.slots[k].s == b;
      }
    }
  }

  // strsed's uses of the slots; a new string grows only while its slot is in use.
  datatype Call = MemCall(who: int, size: nat) | FreeCall(except: Block) | MoreSpaceCall(size: nat, moves: bool)

  function Step(st: Store, call: Call): (after: Store)
    requires |st.slots| == MEM_SLOTS
    ensures |after.slots| == MEM_SLOTS
  {
    match call
    case MemCall(who, size) => if 0 <= who < MEM_SLOTS then Mem(st, who, size) else st
    case FreeCall(except) => Release(st, except)
    case MoreSpaceCall(size, moves) => if st.slots[MEM_NEWSTR].used then MoreSpace(st, size, moves) else st
  }

  function Run(st: Store, calls: seq<Call>): (after: Store)
    requires |st.slots| == MEM_SLOTS
    ensures |after.slots| == MEM_SLOTS
    decreases |calls|
  {
    if calls == [] then st else Run(Step(st, calls[0]), calls[1..])
  }

  // mem_init, before the first call.
  const INITIAL := Store(seq(MEM_SLOTS, _ => Slot(NULL, 0, false)), Heap(map[], [], {}, 1))

  lemma {:induction false} RunKeeps(st: Store, calls: seq<Call>)
    requires Sound(st)
    ensures Sound(Run(st, calls))
    decreases |calls|
  {
    hide Held, NoLeak, Tracked, Mem, Release, MoreSpace;
    if calls != [] {
      match calls[0] {
        case MemCall(who, size) =>
          if 0 <= who < MEM_SLOTS {
            MemKeeps(st, who, size);
          }
        case FreeCall(except) =>
          ReleaseKeeps(st, except);
        case MoreSpaceCall(size, moves) =>
          if st.slots[MEM_NEWSTR].used {
            MoreSpaceKeeps(st, size, moves);
          }
      }
      RunKeeps(Step(st, calls[0]), calls[1..]);
    }
  }

  // How many slots hold b.
  function Holders(slots: seq<Slot>, b: Block): set<nat> {
    set i: nat | i < |slots| && slots[i].s == b
  }

  // Over every run, a block from malloc is in one slot, handed to the caller, or freed once: exactly one of the three.
  lemma EveryBlockHasOneFate(calls: seq<Call>, b: Block)
    requires NULL < b < Run(INITIAL, calls).heap.next
    ensures var end := Run(INITIAL, calls);
      var slots, handed, freed :=
        |Holders(end.slots, b)|, if b in end.heap.handed then 1 else 0, multiset(end.heap.freed)[b];
      slots + handed + freed == 1
  {
    hide Run;
    assert Sound(INITIAL);
    RunKeeps(INITIAL, calls);
    OneFate(Run(INITIAL, calls), b);
  }

  lemma OneFate(st: Store, b: Block)
    requires Sound(st) && NULL < b < st.heap.next
    ensures |Holders(st.slots, b)| + (if b in st.heap.handed then 1 else 0) + multiset(st.heap.freed)[b] == 1
  {
    DistinctCounts(st.heap.freed, b);
    if InSlot(st.slots, b) {
      var k :| 0 <= k < MEM_SLOTS && st.slots[k].s == b;
      assert Holders(st.slots, b) == {k};
    } else {
      assert Holders(st.slots, b) == {};
    }
  }

  lemma {:induction false} DistinctCounts(s: seq<Block>, b: Block)
    requires forall i, j :: 0 <= i < j < |s| ==> s[i] != s[j]
    ensures multiset(s)[b] == if b in s then 1 else 0
  {
    if s != [] {
      DistinctCounts(s[1..], b);
      assert s == [s[0]] + s[1..];
    }
  }
}
