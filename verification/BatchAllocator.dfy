/** BatchAllocator with one object per allocation: batches of slots, of which a used part
    is handed out, and a list of released slots threaded through the slots themselves. */
module BatchAllocator {

  /** A pointer to an object: a slot of a batch. */
  datatype Pointer = Null | Slot(batch: Batch, index: nat)

  class Batch {
    var next: Batch?
    var used: nat
    const end: nat

    constructor (objectsPerPage: nat)
      ensures next == null && used == 0 && end == objectsPerPage
    {
      next := null;
      used := 0;
      end := objectsPerPage;
    }
  }

  // ----- the batches -----

  ghost function After(chain: seq<Batch>, i: nat): Batch? {
    if i + 1 < |chain| then chain[i + 1] else null
  }

  /** The batches, in the order of their links. */
  ghost predicate IsChain(chain: seq<Batch>)
    reads chain
  {
    chain != [] &&
    (forall i :: 0 <= i < |chain| ==> chain[i].next == After(chain, i)) &&
    (forall i, j :: 0 <= i < j < |chain| ==> chain[i] != chain[j]) &&
    (forall b :: b in chain ==> b.used <= b.end)
  }

  /** The slots in the used parts of the batches. */
  ghost predicate AreUsed(chain: seq<Batch>, slots: set<Pointer>)
    reads chain
  {
    (forall p :: p in slots ==> p.Slot? && p.batch in chain && p.index < p.batch.used) &&
    (forall b, i :: b in chain && 0 <= i < b.used ==> Slot(b, i) in slots)
  }

  lemma ChainGrows(batch: Batch, chain: seq<Batch>)
    requires IsChain(chain) && batch !in chain && batch.next == chain[0] && batch.used <= batch.end
    ensures IsChain([batch] + chain)
  {
    var longer := [batch] + chain;
    forall i | 0 <= i < |longer| ensures longer[i].next == After(longer, i) {
      if i > 0 { assert longer[i] == chain[i - 1] && After(longer, i) == After(chain, i - 1); }
    }
    forall i, j | 0 <= i < j < |longer| ensures longer[i] != longer[j] {
      assert longer[j] == chain[j - 1];
      if i > 0 { assert longer[i] == chain[i - 1]; }
    }
  }

  // ----- the released slots -----

  /** The released slots, from the first, each holding a pointer to the next. */
  ghost predicate IsFreeList(memory: map<Pointer, Pointer>, head: Pointer, free: seq<Pointer>)
    decreases |free|
  {
    if free == [] then head == Null
    else
      head == free[0] && head.Slot? && head in memory && head !in free[1..] &&
      IsFreeList(memory, memory[head], free[1..])
  }

  lemma {:induction false} FreeListKeeps(memory: map<Pointer, Pointer>, head: Pointer, free: seq<Pointer>, p: Pointer, v: Pointer)
    requires IsFreeList(memory, head, free) && p !in free
    ensures IsFreeList(memory[p := v], head, free)
    decreases |free|
  {
    if free != [] { FreeListKeeps(memory, memory[head], free[1..], p, v); }
  }

  /** Every slot of the used parts is either a live object or in the list. */
  ghost predicate IsSplit(slots: set<Pointer>, live: set<Pointer>, free: seq<Pointer>) {
    slots == live + (set p | p in free) && forall p :: p in live ==> p !in free
  }

  lemma SplitGrows(slots: set<Pointer>, live: set<Pointer>, free: seq<Pointer>, p: Pointer)
    requires IsSplit(slots, live, free) && p !in slots
    ensures IsSplit(slots + {p}, live + {p}, free) && p !in live
  {
  }

  class BatchAllocator {
    var batches: Batch
    var currentBatch: Batch?
    var freeHead: Pointer
    const objectsPerPage: nat
    /** What the slots hold: anything in a live object, a pointer in a released one. */
    var memory: map<Pointer, Pointer>

    ghost var chain: seq<Batch>
    ghost var slots: set<Pointer>
    ghost var free: seq<Pointer>
    /** The objects allocated and not released. */
    ghost var live: set<Pointer>

    ghost predicate BatchesAreSound()
      reads this, chain
    {
      objectsPerPage > 0 && IsChain(chain) && batches == chain[0] && AreUsed(chain, slots)
    }

    /** Every slot is in exactly one place: it is a live object, or in the list of
        released ones, or in the unused part of its batch; and only the current batch
        has an unused part. */
    ghost predicate Valid()
      reads this, chain
    {
      BatchesAreSound() && currentBatch != null && currentBatch in chain &&
      (forall b :: b in chain && b != currentBatch ==> b.used == b.end) &&
      IsFreeList(memory, freeHead, free) && IsSplit(slots, live, free)
    }

    constructor (objectsPerPage: nat)
      requires objectsPerPage >= 16
      ensures Valid() && live == {} && free == [] && this.objectsPerPage == objectsPerPage
      ensures forall b :: b in chain ==> fresh(b)
    {
      this.objectsPerPage := objectsPerPage;
      freeHead := Null;
      memory := map[];
      var dummy := new Batch(0);
      batches := dummy;
      currentBatch := dummy;
      chain := [dummy];
      slots := {};
      free := [];
      live := {};
    }

    /** The search for a batch with room, from the current one's successor on, finds none. */
    method NextBatch()
      requires BatchesAreSound() && currentBatch != null && currentBatch in chain
      requires forall b :: b in chain ==> b.used == b.end
      modifies this`currentBatch
      ensures currentBatch == null
    {
      ghost var k :| 0 <= k < |chain| && chain[k] == currentBatch;
      assert chain[k].next == After(chain, k);
      currentBatch := currentBatch.next;
      while currentBatch != null && currentBatch.used == currentBatch.end
        invariant 0 <= k < |chain| && currentBatch == After(chain, k)
        decreases |chain| - k
      {
        k := k + 1;
        assert chain[k].next == After(chain, k);
        currentBatch := currentBatch.next;
      }
    }

    method AddBatch()
      requires BatchesAreSound()
      modifies this`batches, this`currentBatch, this`chain
      ensures BatchesAreSound() && fresh(currentBatch) && currentBatch.used == 0 && currentBatch.end == objectsPerPage
      ensures chain == [currentBatch] + old(chain)
    {
      var batch := new Batch(objectsPerPage);
      batch.next := batches;
      batches := batch;
      currentBatch := batch;
      ChainGrows(batch, chain);
      chain := [batch] + chain;
    }

    /** The object returned is not live: it is the last one released, or else the first
        of the unused part of a batch. */
    method Allocate() returns (obj: Pointer)
      requires Valid()
      modifies this, chain
      ensures Valid() && obj.Slot? && obj !in old(live) && live == old(live) + {obj}
      ensures old(free) != [] ==> obj == old(free)[0] && free == old(free)[1..] && chain == old(chain)
      ensures old(free) == [] ==> free == [] && obj !in old(slots) && slots == old(slots) + {obj}
      ensures chain == old(chain) || (chain[1..] == old(chain) && fresh(chain[0]))
    {
      if freeHead.Slot? {
        obj := TakeFree();
        return;
      }
      if currentBatch.used == currentBatch.end { MoveOn(); }
      obj := TakeUnused();
    }

    method TakeFree() returns (obj: Pointer)
      requires Valid() && free != []
      modifies this`freeHead, this`free, this`live
      ensures Valid() && obj.Slot? && obj !in old(live) && live == old(live) + {obj}
      ensures obj == old(free)[0] && free == old(free)[1..]
    {
      hide IsChain, AreUsed;
      obj := freeHead;
      freeHead := memory[obj];
      live := live + {obj};
      free := free[1..];
    }

    /** From a full batch to one with room. */
    method MoveOn()
      requires Valid() && currentBatch.used == currentBatch.end
      modifies this`batches, this`currentBatch, this`chain
      ensures Valid() && currentBatch.used < currentBatch.end
      ensures fresh(currentBatch) && chain == [currentBatch] + old(chain)
    {
      hide IsFreeList, IsSplit, After;
      NextBatch();
      AddBatch();
    }

    method TakeUnused() returns (obj: Pointer)
      requires Valid() && currentBatch.used < currentBatch.end && free == []
      modifies this`slots, this`live, currentBatch`used
      ensures Valid() && obj.Slot? && obj !in old(slots) && obj !in old(live)
      ensures slots == old(slots) + {obj} && live == old(live) + {obj}
    {
      hide IsFreeList, After, IsSplit;
      obj := Slot(currentBatch, currentBatch.used);
      assert obj !in slots;
      SplitGrows(slots, live, free, obj);
      currentBatch.used := currentBatch.used + 1;
      slots := slots + {obj};
      live := live + {obj};
      assert AreUsed(chain, slots);
    }

    method Release(obj: Pointer)
      requires Valid() && obj in live
      modifies this`memory, this`freeHead, this`free, this`live
      ensures Valid() && live == old(live) - {obj} && free == [obj] + old(free)
    {
      FreeListKeeps(memory, freeHead, free, obj, freeHead);
      memory := memory[obj := freeHead];
      freeHead := obj;
      live := live - {obj};
      free := [obj] + free;
    }

    /** The user of a live object writes what it likes to it. */
    method WriteObject(obj: Pointer, value: Pointer)
      requires Valid() && obj in live
      modifies this`memory
      ensures Valid()
    {
      FreeListKeeps(memory, freeHead, free, obj, value);
      memory := memory[obj := value];
    }
  }
}
