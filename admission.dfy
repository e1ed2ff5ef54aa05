/**
 * The process-wide `semaphore`, a buffered channel of capacity 50: a send takes a
 * slot, a receive gives one back. A send on a full channel blocks; here that waiting is
 * a precondition (`count < Capacity`), so a request is modelled from the moment it holds
 * its slot.
 */
module Admission {

  /** Most conversions in flight at once. */
  const Capacity: nat := 50

  class Semaphore {
    /** Slots currently taken. */
    var count: nat
    /** How many times a slot was taken, and given back, since the semaphore was made. */
    ghost var acquired: nat
    ghost var released: nat

    ghost predicate Valid()
      reads this
    {
      count <= Capacity
    }

    constructor ()
      ensures Valid() && count == 0
      ensures acquired == 0 && released == 0
    {
      count := 0;
      acquired, released := 0, 0;
    }

    /** `semaphore <- struct{}{}` */
    method Acquire()
      requires Valid() && count < Capacity
      modifies this
      ensures Valid() && count == old(count) + 1
      ensures acquired == old(acquired) + 1 && released == old(released)
    {
      count := count + 1;
      acquired := acquired + 1;
    }

    /** `<-semaphore` */
    method Release()
      requires Valid() && count > 0
      modifies this
      ensures Valid() && count == old(count) - 1
      ensures released == old(released) + 1 && acquired == old(acquired)
    {
      count := count - 1;
      released := released + 1;
    }
  }
}
