/**
 The text of the two-thread Peterson lock, shared by both memory models.

 Thread 0 is the source's `f` and thread 1 its `f2`; the two differ only in the
 indices 0 and 1. Every shared access is a program point of its own: the loop
 test reads the flag and then the turn, and the increment is a load and a store.
 */
module PetersonProgram {

  type Tid = t: int | 0 <= t < 2

  /** Where the program has its full fence. The first two forms are the two source
      files; the third is the repaired program the exactness results compare with. */
  datatype Fencing = NoFence | FenceBeforeTurn | FenceAfterTurn

  datatype Pc =
    | Head       // the test i < N of the for loop
    | RaiseFlag  // flag[me] = true
    | Fence1     // fence between the two stores
    | GiveTurn   // turn = other
    | Fence2     // fence after both stores
    | TestFlag   // first read of the loop condition: flag[other]
    | TestTurn   // second read of the loop condition: turn == other
    | LoadCnt    // cnt++, the load
    | StoreCnt   // cnt++, the store
    | LowerFlag  // flag[me] = false
    | End

  function Other(t: Tid): Tid { 1 - t }

  function AfterRaise(p: Fencing): Pc { if p.FenceBeforeTurn? then Fence1 else GiveTurn }

  function AfterGive(p: Fencing): Pc { if p.FenceAfterTurn? then Fence2 else TestFlag }

  /** Between the two reads of the busy-wait loop. */
  predicate Waiting(pc: Pc) { pc.TestFlag? || pc.TestTurn? }

  /** Between leaving the busy-wait loop and issuing `flag[me] = false`. */
  predicate InCs(pc: Pc) { pc.LoadCnt? || pc.StoreCnt? || pc.LowerFlag? }
}
