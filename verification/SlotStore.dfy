// The seven memory slots of strsed as values: what each call makes of the slots and of the heap.
// A block is named by a number that malloc never gives out twice; 0 is the null pointer.
module SlotStore {
  type Block = nat
  const NULL: Block := 0
  const MEM_SLOTS: nat := 7
  const MEM_NEWSTR: nat := 4
  // Slots as large as this are never replaced by a saved block.
  const SMALL_LIMIT: nat := 32767

  datatype Slot = Slot(s: Block, size: nat, used: bool)

  // live: allocated sizes; freed: arguments of free in order; handed: blocks returned to strsed's caller.
  datatype Heap = Heap(live: map<Block, nat>, freed: seq<Block>, handed: set<Block>, next: Block)

  datatype Store = Store(slots: seq<Slot>, heap: Heap)

  function Malloc(h: Heap, size: nat): Heap {
    h.(live := h.live[h.next := size], next := h.next + 1)
  }

  function Free(h: Heap, b: Block): Heap {
    if b == NULL then h else h.(live := h.live - {b}, freed := h.freed + [b])
  }

  predicate Empty(slot: Slot) {
    !slot.used && slot.s == NULL
  }

  // The first unused slot without an allocation, or |slots|.
  function FirstEmpty(slots: seq<Slot>, from: nat): (i: nat)
    requires from <= |slots|
    ensures from <= i <= |slots|
    ensures forall k :: from <= k < i ==> !Empty(slots[k])
    ensures i < |slots| ==> Empty(slots[i])
    decreases |slots| - from
  {
    if from == |slots| || Empty(slots[from]) then from else FirstEmpty(slots, from + 1)
  }

  predicate Fits(slot: Slot, size: nat) {
    !slot.used && slot.s != NULL && slot.size >= size
  }

  // The first unused allocation that is large enough, or |slots|.
  function FirstFit(slots: seq<Slot>, size: nat, from: nat): (i: nat)
    requires from <= |slots|
    ensures from <= i <= |slots|
    ensures forall k :: from <= k < i ==> !Fits(slots[k], size)
    ensures i < |slots| ==> Fits(slots[i], size)
    decreases |slots| - from
  {
    if from == |slots| || Fits(slots[from], size) then from else FirstFit(slots, size, from + 1)
  }

  predicate Replaceable(slot: Slot, size: nat) {
    !slot.used && slot.size < size && slot.size < SMALL_LIMIT
  }

  // Of the first n slots, the smallest one that a block of the given size may replace, or -1.
  function Smallest(slots: seq<Slot>, size: nat, n: nat): (small: int)
    requires n <= |slots|
    ensures -1 <= small < n
    ensures small == -1 ==> forall k :: 0 <= k < n ==> !Replaceable(slots[k], size)
    ensures small >= 0 ==> Replaceable(slots[small], size)
    ensures small >= 0 ==>
      forall k :: 0 <= k < n && Replaceable(slots[k], size) ==>
        slots[small].size <= slots[k].size && (k < small ==> slots[small].size < slots[k].size)
  {
    if n == 0 then -1
    else
      var small := Smallest(slots, size, n - 1);
      if Replaceable(slots[n - 1], size) && (small == -1 || slots[n - 1].size < slots[small].size)
      then n - 1 else small
  }

  // mem_save: the block of slot x moves to an empty slot, replaces the smallest smaller unused one, or is freed.
  function Save(st: Store, x: nat): Store
    requires x < |st.slots|
  {
    var block := st.slots[x].(used := false);
    var empty := FirstEmpty(st.slots, 0);
    if empty < |st.slots| then
      st.(slots := st.slots[empty := block])
    else
      var small := Smallest(st.slots, block.size, |st.slots|);
      if small != -1 then
        Store(st.slots[small := block], Free(st.heap, st.slots[small].s))
      else
        st.(heap := Free(st.heap, block.s))
  }

  function Allocate(st: Store, who: nat, size: nat): Store
    requires who < |st.slots|
  {
    Store(st.slots[who := Slot(st.heap.next, size, true)], Malloc(st.heap, size))
  }

  // mem for a slot number in range: afterwards the slot holds the block that is returned.
  function Mem(st: Store, who: nat, size: nat): Store
    requires who < |st.slots|
  {
    var slot := st.slots[who];
    if slot.used then
      if slot.size >= size then st else Allocate(Save(st, who), who, size)
    else if slot.s != NULL then
      if slot.size >= size then st.(slots := st.slots[who := slot.(used := true)])
      else Allocate(Save(st, who), who, size)
    else
      var x := FirstFit(st.slots, size, 0);
      if x < |st.slots| then Steal(st, who, x) else Allocate(st, who, size)
  }

  // The block of slot x moves to slot who; only the pointer of slot x is cleared.
  function Steal(st: Store, who: nat, x: nat): Store
    requires who < |st.slots| && x < |st.slots|
  {
    var taken := st.slots[who := st.slots[x].(used := true)];
    st.(slots := taken[x := taken[x].(s := NULL)])
  }

  // mem_free: every slot becomes unused; the block that is returned to the caller leaves its slot.
  function Release(st: Store, except: Block): Store {
    var slots := seq(|st.slots|, i requires 0 <= i < |st.slots| => Released(st.slots[i], except));
    Store(slots, if InSlot(st.slots, except) && except != NULL
                 then st.heap.(handed := st.heap.handed + {except}) else st.heap)
  }

  function Released(slot: Slot, except: Block): Slot {
    if slot.s == except then Slot(NULL, 0, false) else slot.(used := false)
  }

  // more_space: realloc grows the new string's block where it is, or moves it and frees the old one.
  function MoreSpace(st: Store, size: nat, moves: bool): Store
    requires MEM_NEWSTR < |st.slots|
  {
    var b := st.slots[MEM_NEWSTR].s;
    if moves then
      Allocate(st.(heap := Free(st.heap, b)), MEM_NEWSTR, size)
    else
      Store(st.slots[MEM_NEWSTR := Slot(b, size, true)], st.heap.(live := st.heap.live[b := size]))
  }

  predicate InSlot(slots: seq<Slot>, b: Block) {
    exists i :: 0 <= i < |slots| && slots[i].s == b
  }
}
