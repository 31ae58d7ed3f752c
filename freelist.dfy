/**
 * The free-list behind a Go `sync.Pool`, seen sequentially.
 *
 * `Get` hands back some stored item or, when it chooses not to (or has none),
 * a fresh one from the pool's `New` function; which one is the runtime's choice.
 * That choice is a parameter here: `choice` names the stored item handed back,
 * and any value outside the free-list's indices means a fresh allocation.
 * `Put` stores an item; the order of the stored items plays no role.
 */
module FreeList {

  /** Whether a `Get` with this choice reuses a stored item. */
  predicate Reuses<T>(free: seq<T>, choice: int)
  {
    0 <= choice < |free|
  }

  /** The free-list after a `Get`: the reused item is taken out once, and nothing else changes. */
  function AfterGet<T>(free: seq<T>, choice: int): (rest: seq<T>)
    ensures Reuses(free, choice) ==> multiset(rest) + multiset{free[choice]} == multiset(free)
    ensures !Reuses(free, choice) ==> rest == free
    ensures forall x :: x in rest ==> x in free
  {
    if Reuses(free, choice) then
      assert free == free[..choice] + [free[choice]] + free[choice + 1..];
      free[..choice] + free[choice + 1..]
    else
      free
  }
}
