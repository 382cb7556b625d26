/**
 The grow-and-retry buffer protocol of bootloader/gnu-efi/lib/misc.c and its clients.

 A firmware service is asked with a buffer; while it answers that the buffer is too small, the buffer is
 replaced by one of the size it names.  The firmware's answers and the outcomes of allocation are
 arbitrary.  A pool records which allocations are live and which have been freed, so that freeing twice
 or freeing what was never allocated cannot be expressed.
 */
module GrowBuffer {

  type Pointer = nat

  const NULL: Pointer := 0

  datatype Status = Success | Warning(code: nat) | BufferTooSmall | OutOfResources | OtherError(code: nat) {
    /** EFI_ERROR */
    predicate Error() {
      BufferTooSmall? || OutOfResources? || OtherError?
    }
  }

  class Pool {
    var live: map<Pointer, nat>      // the size of each live allocation
    var freed: seq<Pointer>          // the allocations freed so far, in order
    var next: Pointer

    constructor ()
      ensures Valid() && live == map[] && freed == [] && next == 1
    {
      live, freed, next := map[], [], 1;
    }

    /** Every allocation made is either live or has been freed exactly once. */
    ghost predicate Valid()
      reads this
    {
      && next > NULL
      && (forall p :: 1 <= p < next <==> p in live || p in freed)
      && (forall p :: p in live ==> p !in freed)
      && (forall i, j :: 0 <= i < j < |freed| ==> freed[i] != freed[j])
    }

    /** Whether the allocation succeeds is up to the firmware. */
    method AllocatePool(size: nat, granted: bool) returns (p: Pointer)
      requires Valid()
      modifies this
      ensures Valid() && freed == old(freed)
      ensures granted ==> p == old(next) && live == old(live)[p := size] && next == old(next) + 1
      ensures !granted ==> p == NULL && live == old(live) && next == old(next)
    {
      if !granted {
        return NULL;
      }
      p := next;
      live := live[p := size];
      next := next + 1;
    }

    method FreePool(p: Pointer)
      requires Valid() && p in live
      modifies this
      ensures Valid() && live == old(live) - {p} && freed == old(freed) + [p] && next == old(next)
    {
      live := live - {p};
      freed := freed + [p];
    }
  }

  /** Replaces an allocation: whatever becomes of the new one, the old one is freed, once. */
  method ReallocatePool(pool: Pool, oldPool: Pointer, newSize: nat, granted: bool) returns (newPool: Pointer)
    requires pool.Valid() && (oldPool != NULL ==> oldPool in pool.live)
    modifies pool
    ensures pool.Valid() && (newPool != NULL <==> granted && newSize > 0)
    ensures pool.freed == old(pool.freed) + (if oldPool != NULL then [oldPool] else [])
    ensures newPool == NULL ==> pool.live == old(pool.live) - {oldPool}
    ensures newPool != NULL ==> newPool == old(pool.next) && pool.live == (old(pool.live) - {oldPool})[newPool := newSize]
  {
    newPool := NULL;
    if newSize > 0 {
      newPool := pool.AllocatePool(newSize, granted);
    }
    if oldPool != NULL {
      pool.FreePool(oldPool);
    }
  }

  /** Nothing but the buffer was left behind since the pool held base, and the buffer is live. */
  ghost predicate OnlyBuffer(pool: Pool, base: map<Pointer, nat>, buffer: Pointer)
    reads pool
  {
    && pool.Valid()
    && buffer !in base
    && (if buffer == NULL then pool.live == base else buffer in pool.live && pool.live - {buffer} == base)
  }

  /** Returns whether the caller should ask again with the buffer now allocated. */
  method Grow(pool: Pool, status: Status, buffer: Pointer, bufferSize: nat, granted: bool,
              ghost base: map<Pointer, nat>)
    returns (newStatus: Status, newBuffer: Pointer, tryAgain: bool)
    requires OnlyBuffer(pool, base, buffer) && NULL !in base
    modifies pool
    ensures OnlyBuffer(pool, base, newBuffer) && old(pool.freed) <= pool.freed
    ensures tryAgain ==> newBuffer != NULL && pool.live[newBuffer] == bufferSize
    ensures !tryAgain && newBuffer != NULL ==> newBuffer == buffer && newStatus == status && !status.Error()
                                               && pool.live == old(pool.live)
    ensures !tryAgain && newBuffer == NULL ==> newStatus.Error() || (buffer == NULL && bufferSize == 0)
    ensures tryAgain <==> granted && (status.BufferTooSmall? || (buffer == NULL && bufferSize != 0))
    ensures !tryAgain && (status.BufferTooSmall? || (buffer == NULL && bufferSize != 0)) ==> newStatus == OutOfResources
    ensures !tryAgain && !status.BufferTooSmall? && !(buffer == NULL && bufferSize != 0) ==> newStatus == status
  {
    newStatus, newBuffer := status, buffer;
    if newBuffer == NULL && bufferSize != 0 {
      newStatus := BufferTooSmall;
    }
    tryAgain := false;
    if newStatus == BufferTooSmall {
      if newBuffer != NULL {
        pool.FreePool(newBuffer);
      }
      assert pool.live == base;
      newBuffer := pool.AllocatePool(bufferSize, granted);
      if newBuffer != NULL {
        tryAgain := true;
        assert pool.live - {newBuffer} == base;
      } else {
        newStatus := OutOfResources;
      }
    }
    if !tryAgain && newStatus.Error() && newBuffer != NULL {
      pool.FreePool(newBuffer);
      newBuffer := NULL;
    }
  }

  /** One answer of the firmware: its status, the size it reports, and whether the next allocation would be
      granted. */
  datatype Answer = Answer(status: Status, size: nat, granted: bool)

  /** What the firmware is offered with its answer number n: at first the initial size, then the size it
      reported last. */
  function Offer(size0: nat, answers: seq<Answer>, n: nat): nat
    requires n <= |answers|
  {
    if n == 0 then size0 else answers[n - 1].size
  }

  /** A service that does not fail reports no more than it was offered. */
  ghost predicate Honest(size0: nat, answers: seq<Answer>) {
    forall k :: 0 <= k < |answers| ==> answers[k].status.Error() || answers[k].size <= Offer(size0, answers, k)
  }

  /** Answer number k asks for a larger buffer, and gets it. */
  ghost predicate Retried(answers: seq<Answer>, k: nat)
    requires k < |answers|
  {
    answers[k].status.BufferTooSmall? && answers[k].granted
  }

  /** How a loop ends that has used n answers: at the first one that is not retried, if not before. */
  ghost predicate Ends(granted0: bool, answers: seq<Answer>, n: nat, status: Status)
    requires n <= |answers|
  {
    if n == 0 then !granted0 && status == OutOfResources
    else
      && granted0
      && !Retried(answers, n - 1)
      && status == if answers[n - 1].status.BufferTooSmall? then OutOfResources else answers[n - 1].status
  }

  /** The retry loop that the clients share: starts without a buffer and asks until told to stop.  n is the
      number of answers used; when they run out first, exited is false. */
  method RetryLoop(pool: Pool, size0: nat, granted0: bool, answers: seq<Answer>)
    returns (status: Status, buffer: Pointer, size: nat, exited: bool, ghost n: nat)
    requires pool.Valid() && size0 > 0
    modifies pool
    ensures OnlyBuffer(pool, old(pool.live), buffer) && old(pool.freed) <= pool.freed
    ensures forall p :: old(pool.next) <= p < pool.next && p != buffer ==> p in pool.freed
    ensures n <= |answers| && size == Offer(size0, answers, n) && forall k :: 0 <= k < n - 1 ==> Retried(answers, k)
    ensures exited ==> Ends(granted0, answers, n, status)
    ensures !exited ==> n == |answers| && granted0 && (n > 0 ==> Retried(answers, n - 1))
    ensures exited ==> (buffer == NULL <==> status.Error())
    ensures exited && buffer != NULL ==> n > 0 && pool.live[buffer] == Offer(size0, answers, n - 1)
    ensures exited && buffer != NULL && Honest(size0, answers) ==> size <= pool.live[buffer]
  {
    ghost var base := pool.live;
    assert forall p :: p in base ==> p < pool.next;
    status, buffer, size := Success, NULL, size0;
    var granted := granted0;
    var i := 0;
    while true
      invariant i <= |answers| && OnlyBuffer(pool, base, buffer) && old(pool.freed) <= pool.freed
      invariant forall p :: p in base ==> p < old(pool.next)
      invariant size == Offer(size0, answers, i) && forall k :: 0 <= k < i - 1 ==> Retried(answers, k)
      invariant i == 0 ==> buffer == NULL && status == Success && granted == granted0
      invariant i > 0 ==> granted0 && status == answers[i - 1].status && granted == answers[i - 1].granted
      invariant i > 0 ==> buffer != NULL && pool.live[buffer] == Offer(size0, answers, i - 1)
      decreases |answers| - i
    {
      var again;
      status, buffer, again := Grow(pool, status, buffer, size, granted, base);
      if !again {
        exited := true;
        break;
      }
      if i == |answers| {
        exited := false;
        break;
      }
      status, size, granted := answers[i].status, answers[i].size, answers[i].granted;
      i := i + 1;
    }
    n := i;
    forall p | old(pool.next) <= p < pool.next && p != buffer
      ensures p in pool.freed
    {
      assert p !in base;
      assert p in pool.live - {buffer} <==> p in pool.live;
    }
  }

  const HANDLE_SIZE := 8
  const MEMORY_DESCRIPTOR_SIZE := 40

  /** Either no handles and no buffer, or a live buffer with the handles that the last answer reported. */
  method LibLocateHandle(pool: Pool, granted0: bool, answers: seq<Answer>)
    returns (status: Status, noHandles: nat, buffer: Pointer, exited: bool, ghost n: nat)
    requires pool.Valid()
    modifies pool
    ensures OnlyBuffer(pool, old(pool.live), buffer) && old(pool.freed) <= pool.freed
    ensures n <= |answers| && (exited ==> Ends(granted0, answers, n, status))
    ensures exited ==> (buffer == NULL <==> status.Error())
    ensures exited && status.Error() ==> noHandles == 0
    ensures exited && !status.Error() ==> n > 0 && noHandles == answers[n - 1].size / HANDLE_SIZE
    ensures exited && !status.Error() && Honest(50 * HANDLE_SIZE, answers) ==> noHandles * HANDLE_SIZE <= pool.live[buffer]
  {
    var bufferSize;
    status, buffer, bufferSize, exited, n := RetryLoop(pool, 50 * HANDLE_SIZE, granted0, answers);
    noHandles := bufferSize / HANDLE_SIZE;
    if status.Error() {
      noHandles := 0;
    }
  }

  /** The variable's size is zero without a buffer and what the last answer reported with one. */
  method LibGetVariableAndSize(pool: Pool, granted0: bool, answers: seq<Answer>)
    returns (buffer: Pointer, varSize: nat, exited: bool, ghost n: nat, ghost status: Status)
    requires pool.Valid()
    modifies pool
    ensures OnlyBuffer(pool, old(pool.live), buffer) && old(pool.freed) <= pool.freed
    ensures n <= |answers| && (exited ==> Ends(granted0, answers, n, status))
    ensures exited ==> (buffer == NULL <==> status.Error())
    ensures exited && buffer == NULL ==> varSize == 0
    ensures exited && buffer != NULL ==> n > 0 && varSize == answers[n - 1].size
    ensures exited && buffer != NULL && Honest(100, answers) ==> varSize <= pool.live[buffer]
  {
    var st, bufferSize;
    st, buffer, bufferSize, exited, n := RetryLoop(pool, 100, granted0, answers);
    status := st;
    varSize := if buffer != NULL then bufferSize else 0;
  }

  /** On success the entries are those the last answer reported; noEntries is only written on success. */
  method LibMemoryMap(pool: Pool, granted0: bool, answers: seq<Answer>, descriptorSize: nat, noEntries0: nat)
    returns (buffer: Pointer, noEntries: nat, exited: bool, ghost n: nat, ghost status: Status)
    requires pool.Valid() && descriptorSize > 0
    modifies pool
    ensures OnlyBuffer(pool, old(pool.live), buffer) && old(pool.freed) <= pool.freed
    ensures n <= |answers| && (exited ==> Ends(granted0, answers, n, status))
    ensures exited ==> (buffer == NULL <==> status.Error())
    ensures exited && buffer == NULL ==> noEntries == noEntries0
    ensures exited && buffer != NULL ==> n > 0 && noEntries == answers[n - 1].size / descriptorSize
    ensures exited && buffer != NULL && Honest(MEMORY_DESCRIPTOR_SIZE, answers) ==>
              noEntries * descriptorSize <= pool.live[buffer]
  {
    var st, bufferSize;
    st, buffer, bufferSize, exited, n := RetryLoop(pool, MEMORY_DESCRIPTOR_SIZE, granted0, answers);
    status := st;
    noEntries := noEntries0;
    if !st.Error() {
      noEntries := bufferSize / descriptorSize;
      assert noEntries * descriptorSize <= bufferSize;
    }
  }
}
