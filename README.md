# Nachos user kernel: physical page allocator and page-offset arithmetic

This project models the memory part of `UserKernel`, the kernel of a teaching
operating system (Nachos) that runs user processes on a simulated processor.
It covers two pieces of the kernel.

- **Page-offset constants.** At boot, `initialize` searches for the shift
  distance `offLength` with `pageSize >> offLength == 1`. It then sets
  `offMask = (1 << offLength) - 1`. `getOffset` masks an address with
  `offMask`.
- **The physical page allocator.** The global list `availablePages` holds the
  free physical page numbers. Boot fills it with `0 .. numPhysPages-1`.
  `newPage` removes and returns the head of the list, or returns `-1` when the
  list is empty. `deletePage` appends a page at the tail and always returns
  `true`.

The project has three modules:

- `JavaInt` (`java_int.dfy`) holds Java's 32-bit `int` as the newtype `int32`.
  It also holds `>>` (`ShiftRight`: floor division by 2^(k mod 32)) and `&`
  (`BitAnd`: two's-complement AND on unbounded integers), each with the facts
  the kernel relies on.
- `FreePages` (`free_pages.dfy`) models the free list as a value.
  `Ascending` is the list that boot builds. `TakeFirst` is one `newPage`.
  `Step`, `Run` and `Returned` play a sequence of calls. A `Pool` adds the
  multiset of pages that callers hold, which is the basis of the
  no-double-allocation theorem.
- `Kernel` (`user_kernel.dfy`) holds the class `UserKernel`. Its fields
  `offLength`, `offMask` and `availablePages` stand for the Java static
  fields. Its methods `Initialize`, `NewPage` and `DeletePage` update those
  fields in place, and `GetOffset` is a pure function that reads them.

Two behaviours of the code are worth stating:

- The `offLength` search ends for every positive page size, not only for
  powers of two. `x >> k == 1` holds exactly when 2^k <= x < 2^(k+1), so the
  loop stops at the floor of log2(pageSize). For a page size that is not a
  power of two, the loop does not hang: it leaves a mask smaller than
  `pageSize - 1`. The loop runs forever only when `pageSize <= 0`, so
  `Initialize` requires `0 < pageSize`.
- `newPage` does not return the lowest free page. It returns the head of a
  FIFO queue to which `deletePage` appends (`NotLowestFirst`).

## Model

| member | source | states |
|---|---|---|
| `Kernel.UserKernel.constructor` | UserKernel.java:178-181 | Before boot, offLength and offMask hold Java's default 0 and the free list is empty. This state is `Valid()`, so `GetOffset` returns 0, which is `virtualAddr & 0`. |
| `Kernel.UserKernel.Initialize` | UserKernel.java:33-47 | For any positive page size, the search ends with `pageSize >> offLength == 1`, 2^offLength <= pageSize < 2^(offLength+1) and offMask = 2^offLength - 1. The page size is a power of two exactly when it equals 2^offLength, and then offMask = pageSize - 1. The free list becomes exactly [0, 1, ..., n-1], which is empty when n <= 0. |
| `Kernel.UserKernel.GetOffset` | UserKernel.java:135-137 | Masking with offMask gives a value in [0, 2^offLength) that equals the address modulo 2^offLength, for negative addresses too. |
| `Kernel.UserKernel.NewPage` | UserKernel.java:145-156 | On an empty list it returns -1 and leaves the list unchanged. Otherwise it returns the head and the list becomes its tail. The offset fields are unchanged. |
| `Kernel.UserKernel.DeletePage` | UserKernel.java:159-169 | It always returns true. The list becomes the old list with the page appended, with no range or duplicate check. |
| `Kernel.GetOffsetIdempotent` | UserKernel.java:135-137 | The offset of an offset is the offset itself. |
| `Kernel.GetOffsetWith1024BytePages` | UserKernel.java:135-137 | With offLength 10, the offset of 0x4FF is 0xFF and the offset of -1 is 0x3FF. |
| `JavaInt.ShiftIsOne` | UserKernel.java:35 | For x > 0, `x >> k == 1` holds if and only if 2^k <= x < 2^(k+1). |
| `JavaInt.PowerOfTwoInOctave` | UserKernel.java:34-38 | A value in [2^k, 2^(k+1)) is a power of two if and only if it equals 2^k. |
| `JavaInt.LowBitsMask` | UserKernel.java:136 | `a & (2^k - 1)` equals `a mod 2^k` (Euclidean) for every integer a. |
| `FreePages.Ascending` | UserKernel.java:44-47 | The boot list has max(n, 0) entries, and entry i is i. |
| `FreePages.AscendingCount` | UserKernel.java:45-46 | Every page below n occurs exactly once in the boot list, and no other value occurs. |
| `FreePages.TakeFirst` | UserKernel.java:147-155 | On an empty list the result is -1 with an empty rest. Otherwise the list is the returned page followed by the rest. |
| `FreePages.TakeFirstKeepsDistinct` | UserKernel.java:150-151 | On a list without repeats, newPage leaves a list without repeats, and the returned page is no longer in it. |
| `FreePages.ReleaseDistinct` | UserKernel.java:164 | The appended list has no repeats if and only if the old list had none and did not contain the page. |
| `FreePages.DrainInOrder` | UserKernel.java:150-151 | One newPage per free page returns the pages in list order and empties the list. The next call returns -1. |
| `FreePages.FreshDrain` | UserKernel.java:43-47 | After boot with n pages and no frees, successive newPage calls return 0, 1, ..., n-1 and then -1. |
| `FreePages.NotLowestFirst` | UserKernel.java:150-151 | After page 0 is given back behind page 1, newPage returns 1 although 0 is free. |
| `FreePages.DoubleFreeHandsOutTwice` | UserKernel.java:159-169 | Giving a page back twice is outside the caller discipline. The allocator accepts it and then hands the same page out twice. |
| `FreePages.NewThenDeleteConserves` | UserKernel.java:145-169 | On a non-empty list, newPage followed by deletePage of its result leaves the same multiset of free pages and the same held pages. |
| `FreePages.StepKeepsAccounted` | UserKernel.java:145-169 | Each call that keeps the caller discipline preserves the invariant that free and held pages together are exactly 0..n-1, each once. |
| `FreePages.HonestRunKeepsAccounted` | UserKernel.java:145-169 | That invariant holds after any sequence of calls that keeps the caller discipline. |
| `FreePages.AccountedMeansExclusive` | UserKernel.java:44-47 | Under the invariant, the free list has no repeats. No page is held twice, and no page is both held and free. All pages are below n. |
| `FreePages.NoDoubleAllocation` | UserKernel.java:145-169 | From boot, every sequence of calls that gives back only held pages leaves no page held twice or both held and free. The free list has no repeats, and every page is below n. |

## Left out

- The page lock (`pageLock.acquire`/`release`): the operations are modelled sequentially, one call at a time.
- The console setup and `selfTest`: console I/O.
- `exceptionHandler` and `currentProcess`: they go through the current thread, the processor's cause register and `UserProcess.handleException`. These classes are not part of this model.
- `run` and `terminate`: process creation, shell loading and shutdown over classes that are not part of this model.
- `getVirtualPageNumber` and `makeAddress`: they delegate to `Processor.pageFromAddress` and `Processor.makeAddress`, which are not part of this model. No round trip between page number, offset and address is claimed.
- The registration of the exception callback with the processor.
- The processor's page size and physical page count are parameters of `Initialize`.
- `availablePages` is `null` before `initialize` in Java. The model's constructor sets it to an empty sequence, so a `newPage` before boot returns -1 instead of throwing a null-pointer exception.
- `Kernel.UserKernel.Initialize`: `1 << offLength` is modelled as 2^offLength. The two agree because the search bounds offLength below 31.
- The sentinel `-1` is ambiguous once `deletePage(-1)` has queued it, because deletePage does no range check. The model keeps this behaviour and does not try to tell the two apart.
