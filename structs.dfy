/**
 * `StructPool[T]`: a pool of records of one struct type `T`.
 *
 * Go's reflection is replaced by an explicit description of `T` (`TypeInfo`),
 * and a record (`*T`) is an object over exactly `T`'s static size in bytes.
 * The pool keeps, besides its free-list, the set of records on which a
 * finalizer is currently registered (`finalizerFlag`).
 */
module Structs {
  import opened Memory
  import FreeList

  /** The kinds `reflect.Kind` distinguishes. */
  datatype Kind =
    | Invalid | Bool | Int | Int8 | Int16 | Int32 | Int64
    | Uint | Uint8 | Uint16 | Uint32 | Uint64 | Uintptr
    | Float32 | Float64 | Complex64 | Complex128
    | Array | Chan | Func | Interface | Map | Pointer | Slice | String | Struct | UnsafePointer

  /** What `reflect.TypeOf(new(T)).Elem()` tells the pool about `T`: its kind and `Size()`. */
  datatype TypeInfo = TypeInfo(kind: Kind, size: nat)

  datatype Result<T> = Ok(value: T) | Err(msg: string)

  const ErrNotStruct: string := "generic type must be a struct"

  /** The kind check of `NewStructPool`: a struct type yields its size as the pool's `dataSize`, any other kind an error. */
  function RecordSize(typ: TypeInfo): (r: Result<nat>)
    ensures r.Ok? <==> typ.kind == Struct
    ensures r.Ok? ==> r.value == typ.size
    ensures r.Err? ==> r.msg == ErrNotStruct
  {
    match typ.kind
    case Struct => Ok(typ.size)
    case _ => Err(ErrNotStruct)
  }

  /** A record `*T`: its storage is `T`'s bytes. */
  class Record {
    const bytes: array<byte>

    /** `new(T)`: fresh, zeroed storage. */
    constructor (size: nat)
      ensures fresh(bytes) && bytes[..] == Zeros(size)
    {
      bytes := new byte[size](_ => 0);
    }
  }

  /** A call on the pool, as it affects the finalizer flags. */
  datatype Call = Acquire(taken: Record, finalizer: bool) | Release(given: Record?)

  /** The flag set after one call: `GetData(true)` stores the record's flag, `PutData` deletes it if present. */
  function FlagsAfter(flags: set<Record>, c: Call): set<Record>
  {
    match c
    case Acquire(r, finalizer) => if finalizer then flags + {r} else flags
    case Release(r) => if r == null then flags else flags - {r}
  }

  /** The flag set after a whole sequence of calls, the last one applied last. */
  function FlagsAfterCalls(flags: set<Record>, calls: seq<Call>): set<Record>
    decreases |calls|
  {
    if calls == [] then flags
    else FlagsAfter(FlagsAfterCalls(flags, calls[..|calls| - 1]), calls[|calls| - 1])
  }

  /** `x` was last handed out with a finalizer and has not been released since. */
  ghost predicate Armed(calls: seq<Call>, x: Record)
  {
    exists i :: 0 <= i < |calls| && calls[i] == Acquire(x, true) &&
      forall j :: i < j < |calls| ==> calls[j] != Release(x)
  }

  /** Each call changes the flag of its own record only: an acquire with a finalizer sets it,
      a release clears it, and nothing else moves. */
  lemma FlagsAfterMeaning(flags: set<Record>, c: Call, y: Record)
    ensures c.Acquire? && c.finalizer ==> c.taken in FlagsAfter(flags, c)
    ensures c.Acquire? && y != c.taken ==> (y in FlagsAfter(flags, c) <==> y in flags)
    ensures c.Acquire? && !c.finalizer ==> FlagsAfter(flags, c) == flags
    ensures c.Release? && c.given != null ==> c.given !in FlagsAfter(flags, c)
    ensures c.Release? && y != c.given ==> (y in FlagsAfter(flags, c) <==> y in flags)
    ensures c.Release? && c.given == null ==> FlagsAfter(flags, c) == flags
  {
  }

  /** Starting from a new pool, a record is flagged exactly when some `GetData(true)` handed it out
      and no `PutData` of it followed. */
  lemma {:induction false} FlagsTrackArming(calls: seq<Call>, x: Record)
    ensures x in FlagsAfterCalls({}, calls) <==> Armed(calls, x)
    decreases |calls|
  {
    if calls == [] {
      return;
    }
    var n := |calls| - 1;
    var init := calls[..n];
    var c := calls[n];
    FlagsTrackArming(init, x);
    assert forall i :: 0 <= i < n ==> calls[i] == init[i];
    if c == Acquire(x, true) {
      assert calls[n] == Acquire(x, true);
    } else if c == Release(x) {
      assert calls[n] == Release(x);
    } else {
      assert x in FlagsAfterCalls({}, calls) <==> x in FlagsAfterCalls({}, init);
      if Armed(calls, x) {
        var i :| 0 <= i < |calls| && calls[i] == Acquire(x, true) &&
          forall j :: i < j < |calls| ==> calls[j] != Release(x);
        assert i < n;
        assert init[i] == Acquire(x, true);
        assert Armed(init, x);
      }
      if Armed(init, x) {
        var i :| 0 <= i < |init| && init[i] == Acquire(x, true) &&
          forall j :: i < j < |init| ==> init[j] != Release(x);
        assert calls[i] == Acquire(x, true);
      }
    }
  }

  class StructPool {
    const dataSize: nat
    var free: seq<Record>
    var flagged: set<Record>

    ghost predicate Valid()
      reads this
    {
      forall r :: r in free ==> r.bytes.Length == dataSize
    }

    /** The storage of the stored records. */
    ghost function Storage(): set<array<byte>>
      reads this
    {
      set r | r in free :: r.bytes
    }

    /** The pool `NewStructPool` builds once the kind check has passed. */
    constructor (dataSize: nat)
      ensures Valid()
      ensures this.dataSize == dataSize && free == [] && flagged == {}
    {
      this.dataSize := dataSize;
      free := [];
      flagged := {};
    }

    /** Takes a record from the free-list (or allocates one) and, when `finalizer` holds, flags it. */
    method GetData(finalizer: bool, choice: int) returns (data: Record)
      requires Valid()
      modifies this
      ensures Valid()
      ensures free == FreeList.AfterGet(old(free), choice)
      ensures flagged == FlagsAfter(old(flagged), Acquire(data, finalizer))
      ensures finalizer ==> flagged == old(flagged) + {data}
      ensures !finalizer ==> flagged == old(flagged)
      ensures data.bytes.Length == dataSize
      ensures FreeList.Reuses(old(free), choice) ==> data == old(free)[choice]
      ensures !FreeList.Reuses(old(free), choice) ==> fresh(data) && fresh(data.bytes) && data.bytes[..] == Zeros(dataSize)
    {
      if FreeList.Reuses(free, choice) {
        data := free[choice];
        free := FreeList.AfterGet(free, choice);
      } else {
        data := new Record(dataSize);
      }
      if finalizer {
        flagged := flagged + {data};
      }
    }

    /** `GetData`, then every one of the record's `dataSize` bytes is set to 0. */
    method GetEmptyData(finalizer: bool, choice: int) returns (data: Record)
      requires Valid()
      modifies this, Storage()
      ensures Valid()
      ensures free == FreeList.AfterGet(old(free), choice)
      ensures flagged == FlagsAfter(old(flagged), Acquire(data, finalizer))
      ensures finalizer ==> flagged == old(flagged) + {data}
      ensures !finalizer ==> flagged == old(flagged)
      ensures data.bytes[..] == Zeros(dataSize)
      ensures FreeList.Reuses(old(free), choice) ==> data == old(free)[choice]
      ensures !FreeList.Reuses(old(free), choice) ==> fresh(data) && fresh(data.bytes)
      ensures forall b :: b in old(Storage()) && b != data.bytes ==> b[..] == old(b[..])
    {
      data := GetData(finalizer, choice);
      ghost var before := data.bytes[..];
      for i := 0 to dataSize
        modifies data.bytes
        invariant data.bytes[..] == ZeroedPrefix(before, i)
      {
        data.bytes[i] := 0;
      }
    }

    /** Ignores nil; otherwise deletes the record's flag if present and stores the record, once per call. */
    method PutData(data: Record?)
      requires Valid()
      requires data != null ==> data.bytes.Length == dataSize // a `*T` points at `T`'s bytes
      modifies this
      ensures Valid()
      ensures flagged == FlagsAfter(old(flagged), Release(data))
      ensures data == null ==> free == old(free) && flagged == old(flagged)
      ensures data != null ==> free == old(free) + [data] && flagged == old(flagged) - {data}
    {
      if data == null {
        return;
      }
      if data in flagged {
        flagged := flagged - {data};
      }
      free := free + [data];
    }
  }

  /** Releasing the same record twice through `PutData` stores it twice: release is not idempotent. */
  method ReleaseTwice(pool: StructPool, x: Record)
    requires pool.Valid() && x.bytes.Length == pool.dataSize
    modifies pool
    ensures pool.free == old(pool.free) + [x, x]
    ensures multiset(pool.free)[x] == multiset(old(pool.free))[x] + 2
    ensures x !in pool.flagged
  {
    pool.PutData(x);
    pool.PutData(x);
  }

  /** `NewStructPool[T]()`: an error and no pool unless `T` is a struct; else an empty pool over `T`'s size. */
  method NewStructPool(typ: TypeInfo) returns (r: Result<StructPool>)
    ensures r.Ok? <==> typ.kind == Struct
    ensures r.Err? ==> r.msg == ErrNotStruct
    ensures r.Ok? ==> fresh(r.value) && r.value.Valid()
    ensures r.Ok? ==> r.value.dataSize == typ.size && r.value.free == [] && r.value.flagged == {}
  {
    match RecordSize(typ)
    case Err(msg) =>
      r := Err(msg);
    case Ok(size) =>
      var pool := new StructPool(size);
      r := Ok(pool);
  }

  /** A caller's view: a released record loses its flag, and a zeroed acquire of it shows none of its old bytes. */
  method ReleaseScenario()
  {
    var r := NewStructPool(TypeInfo(Struct, 24));
    assert r.Ok?;
    var pool := r.value;
    var x := pool.GetData(true, -1);
    assert x in pool.flagged;
    x.bytes[0] := 42;
    pool.PutData(x);
    assert x !in pool.flagged && pool.free == [x];
    var y := pool.GetEmptyData(false, 0);
    assert y == x && y.bytes[0] == 0;
    assert pool.flagged == {};
    var bad := NewStructPool(TypeInfo(Int, 8));
    assert bad.Err?;
  }
}
