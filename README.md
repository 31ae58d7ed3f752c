# Pool: verified model of the byte-slice pool and the struct pool

This project models the two pools of the Go package `pool`:

- `BytesPool` hands out byte slices that all have one length, `size`. The constructor clamps the
  requested size into `[1, 4096]`. A request of 0 or less becomes `MinBytesSize` (64), one above
  `MaxBytesSize` becomes 4096, and anything else is kept as it is. `GetSlice` takes a slice from the
  free-list, or allocates a new one, and zero-fills it over its length. `GetSizedSlice(n)` reslices
  such a slice to `n`, or to `size` when `n` is not in `[1, size]`. `PutSlice(d)` drops `d` when its
  capacity is below `size`, and otherwise stores `d[:size]`.
- `StructPool[T]` hands out records of a struct type `T`. Construction fails with the error
  "generic type must be a struct" unless `T` has struct kind, and otherwise records `T`'s size as
  `dataSize`. `GetData(finalizer)` takes a record and, when asked, flags it as carrying a finalizer.
  `GetEmptyData` also zeroes the record's `dataSize` bytes. `PutData` ignores nil, deletes the
  record's flag if it has one, and stores the record on the free-list on every call.

Files:

- `memory.dfy`, module `Memory`: the `byte` type, fresh memory (`Zeros`) and the effect of a zeroing
  loop (`ZeroedPrefix`).
- `freelist.dfy`, module `FreeList`: the `sync.Pool` behind both pools, seen as a sequential bag.
  Which stored item `Get` hands back is the runtime's choice, so every acquiring method takes a
  `choice` parameter. When `choice` is an index of the free-list, that item is reused. Any other
  value stands for a fresh allocation by the pool's `New` function.
- `bytes.dfy`, module `Bytes`: `BytesPool` as a class with an immutable `size` and a `free: seq<Slice>`
  field. A Go slice is `Slice(buf, len)`, and its capacity is `buf.Length`. A nil slice is a slice
  over an empty array.
- `structs.dfy`, module `Structs`: `StructPool` as a class with `dataSize`, `free: seq<Record>` and
  the flag map as `flagged: set<Record>`. A record is an object over an `array<byte>` of the type's
  size. The type `T` is passed to `NewStructPool` as a `TypeInfo(kind, size)`.

The state-changing methods state their new free-lists through the pure step functions
`FreeList.AfterGet` and `Bytes.AfterCall`, and their new flag sets through `Structs.FlagsAfter`.
The free-list effect of `Structs.StructPool.PutData` is stated directly, as `old(free) + [data]`.
The lemmas about sequences of calls are stated over
the same functions: `Bytes.AfterCallsKeepsValid` and `Structs.FlagsTrackArming`.

Facts about this code worth stating plainly:

- There is no power-of-two rounding and no table of size classes. The pool size is only clamped
  (bytes.go:18-22).
- `PutSlice` keeps any buffer whose capacity is at least `size` (bytes.go:52). A 5000-byte buffer is
  kept by a 64-byte pool (bytes_test.go:24), and `GetSlice` never zeroes its spare capacity.
- `PutData` stores the record on every call (structs.go:81), so two calls store it twice
  (`Structs.ReleaseTwice`).

## Model

| member | source | states |
|---|---|---|
| `Bytes.ClampSize` | bytes.go:17-22 | the kept size is in `[1, 4096]`; 64 when the request is ≤ 0, 4096 above 4096, the request itself otherwise |
| `Bytes.BytesPool.constructor` | bytes.go:17-32 | a new pool has the clamped size, an empty free-list, and satisfies the pool invariant |
| `Bytes.BytesPool.GetSlice` | bytes.go:34-41 | the result has length `size` and capacity ≥ `size`, and every byte below its length is 0 whatever the buffer held; a reused buffer keeps its spare capacity; a fresh one is all zeros; the free-list loses exactly the reused entry; no other stored buffer changes |
| `Bytes.SizedLength` | bytes.go:43-46 | the resliced length is in `[1, size]`; it equals the request exactly when `0 < n ≤ size`, and is `size` otherwise |
| `Bytes.BytesPool.GetSizedSlice` | bytes.go:43-49 | the result has length `SizedLength(n, size)`, all `size` bytes of its buffer are 0, and the free-list and other buffers change as for `GetSlice` |
| `Bytes.BytesPool.PutSlice` | bytes.go:51-57 | capacity below `size`: free-list unchanged; otherwise exactly one entry `Slice(d.buf, size)` is appended and the old entries stay as they were; the invariant is kept |
| `Bytes.PutMeaning` | bytes.go:51-56 | rejection leaves the free-list equal to the old one; acceptance gives one more entry, of length `size`, sharing `d`'s backing array, after an unchanged prefix |
| `Bytes.AfterCallKeepsValid` | bytes.go:26-56 | one `Get` or `Put` keeps every stored slice at length `size` with capacity ≥ `size` |
| `Bytes.AfterCallsKeepsValid` | bytes.go:26-56 | any sequence of gets and puts, with any slices passed to `PutSlice`, keeps the free-list invariant |
| `FreeList.AfterGet` | bytes.go:35 | a reused item leaves the free-list exactly once (multiset difference of one); no reuse leaves it unchanged; nothing new appears |
| `Memory.ZeroedPrefixMeaning` | bytes.go:36-38 | the zeroing loop keeps the length, writes 0 at every index below the bound, and leaves every index at or above it unchanged |
| `Memory.ZeroedWholeIsZeros` | structs.go:57-67 | zeroing a whole buffer gives the same contents as fresh memory, whatever it held |
| `Structs.RecordSize` | structs.go:22-29 | success exactly when `T` has struct kind, with `dataSize` equal to `T`'s size; otherwise the "must be a struct" error |
| `Structs.NewStructPool` | structs.go:18-41 | error and no pool unless `T` is a struct; otherwise a fresh pool with `dataSize == T.size`, an empty free-list and no flags |
| `Structs.StructPool.constructor` | structs.go:28-33 | the new pool's `dataSize` is the given size, its free-list and flag set are empty |
| `Structs.Record.constructor` | structs.go:30-32 | `new(T)` gives fresh storage of `T`'s size, all zero |
| `Structs.StructPool.GetData` | structs.go:43-52 | the record is the chosen stored one or a fresh zeroed one of `dataSize` bytes; the free-list loses exactly that entry; with `finalizer` the flag set gains exactly that record, without it the flag set is unchanged |
| `Structs.StructPool.GetEmptyData` | structs.go:54-70 | as `GetData`, and the record's `dataSize` bytes are all 0 whatever they held; no other stored record's bytes change |
| `Structs.StructPool.PutData` | structs.go:72-82 | nil changes neither the free-list nor the flags; otherwise the record's flag is removed (other flags unchanged) and the record is appended to the free-list once |
| `Structs.FlagsAfterMeaning` | structs.go:46-81 | an acquire with a finalizer sets only its record's flag; one without changes nothing; a release clears only its record's flag; a nil release changes nothing |
| `Structs.FlagsTrackArming` | structs.go:43-81 | from a new pool, after any sequence of calls, a record is flagged exactly when some `GetData(true)` returned it and no `PutData` of it came later |
| `Structs.ReleaseTwice` | structs.go:72-82 | two `PutData(x)` calls append `x` twice to the free-list (its count rises by two) and leave it unflagged |

## Left out

- Concurrency of `sync.Pool` and `sync.Map`, and eviction of stored items by the garbage collector.
  The free-list is sequential. Eviction is not modelled as a separate step: a `Get` may still
  allocate fresh while items are stored.
- Which stored item `sync.Pool.Get` returns. It is the `choice` parameter, and nothing is proved
  that depends on which item is reused.
- `runtime.SetFinalizer`, both the registration (structs.go:47) and the clearing (structs.go:78),
  and reclamation by the garbage collector. Only the flag bookkeeping is modelled.
- Reflection and the `unsafe` byte view over a record (structs.go:19-20, structs.go:57-63). A record
  is its bytes directly, and the type `T` is given as a `TypeInfo`.
- `utils.go` (`Struct2Slice`). The pools do not use it.
- The log line of `NewStructPool` (structs.go:35-38), which is output only.
- Slices whose start or capacity differs from their backing array's. Every slice the pools create
  starts at index 0 of an array of exactly its capacity. A caller's slice that starts inside its
  array (such as `arr[10:]`) or whose capacity ends before the array does (such as `arr[0:64:64]`
  of a 100-byte `arr`) is modelled as an array of its own capacity. Its aliasing with the rest of
  the array is not captured, so writes through the pooled slice, such as the zeroing in `GetSlice`,
  are not shown through `arr`.
- Bytes.BytesPool.PutSlice: requires that the slice's length is within its capacity. Every Go slice
  satisfies this, so no caller is excluded.
- Structs.StructPool.GetData: for a zero-size struct type (`struct{}`), Go may return the same
  pointer from every `new(T)`. All such records would then share one flag key, so one `PutData`
  clears the flag of all of them. The model treats each allocation as a distinct fresh record.
- Structs.StructPool.GetData: when a record was released twice and two `GetData(true)` calls both
  return it, the second `runtime.SetFinalizer` (structs.go:47) finds a finalizer already set, and
  the Go runtime stops with a fatal error. The model returns normally, because finalizers are not
  modelled.
- Structs.StructPool.PutData: requires that a non-nil record has `dataSize` bytes. In Go this comes
  from the static type `*T`, not from a check.
- `calcSize` (bytes_test.go:78), `GetByteSlice` (bytes_test.go:32) and `ReleaseData`
  (struct_test.go:45), which the tests call, and `ErrInvalidType`, which utils.go:19 returns, are
  defined in none of the modelled files and are not part of this model.
