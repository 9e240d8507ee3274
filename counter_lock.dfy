// CounterLock: the reference count the src revision of SimpleDiskCache keeps
// per disk key. Its ReentrantLock behaviour is not part of this model.
module CounterLockModel {
  import opened Common

  class CounterLock {
    /** Outstanding occupy() calls not yet matched by release(). */
    var count: int

    constructor ()
      ensures count == 0 && IsFree()
    {
      count := 0;
    }

    predicate IsFree()
      reads this
    {
      count == 0
    }

    /** Decrements first, then complains if the count went below zero. */
    method Release() returns (r: Outcome)
      modifies this`count
      ensures count == old(count) - 1
      ensures r == (if old(count) <= 0 then Thrown(IllegalState) else Normal)
    {
      count := count - 1;
      if count < 0 {
        return Thrown(IllegalState);
      }
      return Normal;
    }

    method Occupy()
      modifies this`count
      ensures count == old(count) + 1
    {
      count := count + 1;
    }
  }

  /** n occupy() calls followed by n release() calls leave a new lock free again. */
  method BalancedUseIsFree(n: nat) returns (free: bool, thrown: bool)
    ensures free && !thrown
  {
    var lock := new CounterLock();
    var i := 0;
    while i < n
      invariant 0 <= i <= n && lock.count == i
    {
      lock.Occupy();
      i := i + 1;
    }
    thrown := false;
    while i > 0
      invariant 0 <= i <= n && lock.count == i && !thrown
    {
      var r := lock.Release();
      thrown := r.Thrown?;
      i := i - 1;
    }
    free := lock.IsFree();
  }
}
