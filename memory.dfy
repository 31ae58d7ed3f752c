/** Raw memory as the pools see it: bytes and the effect of zero-filling a prefix. */
module Memory {

  /** A Go `byte`. */
  newtype byte = b: int | 0 <= b < 256

  /** The contents of freshly allocated Go memory of `n` bytes (`make([]byte, n)`, `new(T)`). */
  function Zeros(n: nat): seq<byte>
  {
    seq(n, _ => 0)
  }

  /** The contents of a buffer `s` after a loop wrote 0 at every index below `n` and nowhere else. */
  function ZeroedPrefix(s: seq<byte>, n: nat): seq<byte>
  {
    seq(|s|, i requires 0 <= i < |s| => if i < n then 0 else s[i])
  }

  /** Zero-filling keeps the length, clears exactly the indices below `n` and leaves the rest as it was. */
  lemma ZeroedPrefixMeaning(s: seq<byte>, n: nat)
    ensures |ZeroedPrefix(s, n)| == |s|
    ensures forall i :: 0 <= i < |s| && i < n ==> ZeroedPrefix(s, n)[i] == 0
    ensures forall i :: n <= i < |s| ==> ZeroedPrefix(s, n)[i] == s[i]
  {
  }

  /** Clearing the whole of a buffer leaves it as fresh memory, whatever it held before. */
  lemma ZeroedWholeIsZeros(s: seq<byte>)
    ensures ZeroedPrefix(s, |s|) == Zeros(|s|)
  {
  }
}
