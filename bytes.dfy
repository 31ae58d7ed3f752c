/**
 * `BytesPool`: a pool of byte slices that all have one fixed length, `size`.
 *
 * A Go slice is a view `(backing array, length)`; its capacity is the length of
 * the backing array. Slices are handed out zero-filled over their length.
 */
module Bytes {
  import opened Memory
  import FreeList

  const MinBytesSize: int := 64   // 1 << 6
  const MaxBytesSize: int := 4096 // 1 << 12

  /** A Go `[]byte` that starts at the beginning of its backing array; `cap` is `buf.Length`. */
  datatype Slice = Slice(buf: array<byte>, len: nat) {
    /** Every slice Go can build has its length within its capacity. */
    ghost predicate WellFormed()
    {
      len <= buf.Length
    }
  }

  /** The pool size `NewBytesPool` keeps for a requested size. */
  function ClampSize(requested: int): (size: int)
    ensures 1 <= size <= MaxBytesSize
    ensures requested <= 0 ==> size == MinBytesSize
    ensures requested > MaxBytesSize ==> size == MaxBytesSize
    ensures 0 < requested <= MaxBytesSize ==> size == requested
  {
    if requested <= 0 then MinBytesSize
    else if requested > MaxBytesSize then MaxBytesSize
    else requested
  }

  /** The length `GetSizedSlice` reslices to: the request when it is in [1, poolSize], else the full pool size. */
  function SizedLength(requested: int, poolSize: int): (len: int)
    requires 1 <= poolSize
    ensures 1 <= len <= poolSize
    ensures 0 < requested <= poolSize <==> len == requested
    ensures !(0 < requested <= poolSize) ==> len == poolSize
  {
    if requested > poolSize || requested <= 0 then poolSize else requested
  }

  /** What every stored slice satisfies: length exactly `size`, capacity at least `size`. */
  predicate FreeListValid(free: seq<Slice>, size: nat)
  {
    forall s :: s in free ==> s.len == size && size <= s.buf.Length
  }

  /** The free-list after `PutSlice(d)`: too small a capacity is dropped, anything else is stored as `d[:size]`. */
  function AfterPut(free: seq<Slice>, size: nat, d: Slice): seq<Slice>
  {
    if d.buf.Length < size then free else free + [Slice(d.buf, size)]
  }

  /** A call on the pool, as it affects the free-list. */
  datatype Call = Get(choice: int) | Put(d: Slice)

  function AfterCall(free: seq<Slice>, size: nat, c: Call): seq<Slice>
  {
    match c
    case Get(choice) => FreeList.AfterGet(free, choice)
    case Put(d) => AfterPut(free, size, d)
  }

  /** The free-list after a whole sequence of calls, the last one applied last. */
  function AfterCalls(free: seq<Slice>, size: nat, calls: seq<Call>): seq<Slice>
    decreases |calls|
  {
    if calls == [] then free
    else AfterCall(AfterCalls(free, size, calls[..|calls| - 1]), size, calls[|calls| - 1])
  }

  /** A rejected `PutSlice` leaves the free-list as it was; an accepted one adds exactly one entry,
      of length `size`, over `d`'s own backing array, after the unchanged old entries. */
  lemma PutMeaning(free: seq<Slice>, size: nat, d: Slice)
    ensures d.buf.Length < size ==> AfterPut(free, size, d) == free
    ensures d.buf.Length >= size ==>
      var r := AfterPut(free, size, d);
      |r| == |free| + 1 && r[..|free|] == free && r[|free|].buf == d.buf && r[|free|].len == size
  {
  }

  /** One call keeps the free-list invariant. */
  lemma AfterCallKeepsValid(free: seq<Slice>, size: nat, c: Call)
    requires FreeListValid(free, size)
    ensures FreeListValid(AfterCall(free, size, c), size)
  {
  }

  /** No sequence of `GetSlice`/`GetSizedSlice`/`PutSlice` calls ever stores a slice of the wrong length
      or of too small a capacity, whatever the callers pass to `PutSlice`. */
  lemma {:induction false} AfterCallsKeepsValid(free: seq<Slice>, size: nat, calls: seq<Call>)
    requires FreeListValid(free, size)
    ensures FreeListValid(AfterCalls(free, size, calls), size)
    decreases |calls|
  {
    if calls != [] {
      AfterCallsKeepsValid(free, size, calls[..|calls| - 1]);
      AfterCallKeepsValid(AfterCalls(free, size, calls[..|calls| - 1]), size, calls[|calls| - 1]);
    }
  }

  class BytesPool {
    const size: int
    var free: seq<Slice>

    ghost predicate Valid()
      reads this
    {
      1 <= size <= MaxBytesSize && FreeListValid(free, size)
    }

    /** The backing arrays of the stored slices. */
    ghost function Buffers(): set<array<byte>>
      reads this
    {
      set s | s in free :: s.buf
    }

    /** `NewBytesPool(requested)`. */
    constructor (requested: int)
      ensures Valid()
      ensures size == ClampSize(requested)
      ensures free == []
    {
      size := ClampSize(requested);
      free := [];
    }

    /** Takes a slice from the free-list (or makes a fresh one of length `size`) and zero-fills it over its length. */
    method GetSlice(choice: int) returns (s: Slice)
      requires Valid()
      modifies this, Buffers()
      ensures Valid()
      ensures free == AfterCall(old(free), size, Get(choice))
      ensures s.len == size && size <= s.buf.Length
      ensures forall k :: 0 <= k < s.len ==> s.buf[k] == 0
      ensures FreeList.Reuses(old(free), choice) ==>
        s == old(free)[choice] && s.buf[..] == ZeroedPrefix(old(s.buf[..]), size)
      ensures !FreeList.Reuses(old(free), choice) ==> fresh(s.buf) && s.buf[..] == Zeros(size)
      ensures forall b :: b in old(Buffers()) && b != s.buf ==> b[..] == old(b[..])
    {
      if FreeList.Reuses(free, choice) {
        s := free[choice];
        free := FreeList.AfterGet(free, choice);
      } else {
        var buf := new byte[size](_ => 0);
        s := Slice(buf, size);
      }
      ghost var before := s.buf[..];
      for i := 0 to s.len
        modifies s.buf
        invariant s.buf[..] == ZeroedPrefix(before, i)
      {
        s.buf[i] := 0;
      }
    }

    /** `GetSlice()[:n']` where `n'` is `n` when `0 < n <= size` and `size` otherwise. */
    method GetSizedSlice(n: int, choice: int) returns (s: Slice)
      requires Valid()
      modifies this, Buffers()
      ensures Valid()
      ensures free == AfterCall(old(free), size, Get(choice))
      ensures s.len == SizedLength(n, size) && size <= s.buf.Length
      ensures forall k :: 0 <= k < size ==> s.buf[k] == 0
      ensures FreeList.Reuses(old(free), choice) ==>
        s.buf == old(free)[choice].buf && s.buf[..] == ZeroedPrefix(old(s.buf[..]), size)
      ensures !FreeList.Reuses(old(free), choice) ==> fresh(s.buf) && s.buf[..] == Zeros(size)
      ensures forall b :: b in old(Buffers()) && b != s.buf ==> b[..] == old(b[..])
    {
      var whole := GetSlice(choice);
      s := Slice(whole.buf, SizedLength(n, size));
    }

    /** Stores `d[:size]` unless `d`'s capacity is below `size`, in which case `d` is dropped. */
    method PutSlice(d: Slice)
      requires Valid()
      requires d.WellFormed()
      modifies this
      ensures Valid()
      ensures free == AfterCall(old(free), size, Put(d))
      ensures d.buf.Length < size ==> free == old(free)
      ensures d.buf.Length >= size ==> free == old(free) + [Slice(d.buf, size)]
    {
      if d.buf.Length < size {
        return;
      }
      free := free + [Slice(d.buf, size)];
    }
  }

  /** A caller's view: data written into a released buffer is not visible to the next caller that reuses it. */
  method ReuseScenario()
  {
    var pool := new BytesPool(MaxBytesSize);
    var a := pool.GetSlice(-1);
    assert a.len == 4096;
    forall k | 0 <= k < 100 {
      a.buf[k] := 7;
    }
    pool.PutSlice(a);
    var b := pool.GetSlice(0);
    assert b.buf == a.buf;
    assert forall k :: 0 <= k < 100 ==> b.buf[k] == 0;
    var none := new byte[0];
    pool.PutSlice(Slice(none, 0));
    assert pool.free == [];
  }
}
