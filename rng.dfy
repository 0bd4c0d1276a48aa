/**
 * The pseudo-random source and `Collections.shuffle`.
 *
 * The generator is modelled as a fixed stream of draws (standing for the
 * seed) and a read position; `NextInt(bound)` takes the next draw modulo the
 * bound. `Shuffle` is the swap loop `Collections.shuffle` runs on a
 * random-access list: for i from the size down to 2, swap positions i-1 and
 * nextInt(i).
 */
module Random {

  class Rng {
    /** The draws the generator will produce, in order. */
    const draws: nat -> nat
    /** How many draws have been consumed. */
    var pos: nat

    constructor (draws: nat -> nat)
      ensures this.draws == draws && pos == 0
    {
      this.draws := draws;
      pos := 0;
    }

    /** `Random.nextInt(bound)`: a value in [0, bound). */
    method NextInt(bound: nat) returns (r: nat)
      requires bound > 0
      modifies this
      ensures r < bound && r == draws(old(pos)) % bound
      ensures pos == old(pos) + 1
    {
      r := draws(pos) % bound;
      pos := pos + 1;
    }
  }

  /** `s` with the elements at `i` and `j` exchanged. */
  function Swap<T>(s: seq<T>, i: nat, j: nat): (r: seq<T>)
    requires i < |s| && j < |s|
    ensures |r| == |s| && r[i] == s[j] && r[j] == s[i]
    ensures forall k :: 0 <= k < |s| && k != i && k != j ==> r[k] == s[k]
  {
    s[i := s[j]][j := s[i]]
  }

  /**
   * The order the shuffle leaves `s` in when its first `i` positions are still
   * to be shuffled and the next draw is at `pos`.
   */
  function Shuffled<T>(s: seq<T>, draws: nat -> nat, pos: nat, i: nat): seq<T>
    requires i <= |s|
    decreases i
  {
    if i <= 1 then s
    else Shuffled(Swap(s, i - 1, draws(pos) % i), draws, pos + 1, i - 1)
  }

  /** Swapping two positions keeps the same elements. */
  lemma SwapPermutes<T>(s: seq<T>, i: nat, j: nat)
    requires i < |s| && j < |s|
    ensures multiset(Swap(s, i, j)) == multiset(s)
  {
    var t := s[i := s[j]];
    assert multiset(t) == multiset(s) - multiset{s[i]} + multiset{s[j]};
    assert multiset(t[j := s[i]]) == multiset(t) - multiset{t[j]} + multiset{s[i]};
  }

  /** The shuffle only reorders: the result is a permutation of its input. */
  lemma {:induction false} ShuffledPermutes<T>(s: seq<T>, draws: nat -> nat, pos: nat, i: nat)
    requires i <= |s|
    ensures |Shuffled(s, draws, pos, i)| == |s|
    ensures multiset(Shuffled(s, draws, pos, i)) == multiset(s)
    decreases i
  {
    if i > 1 {
      var t := Swap(s, i - 1, draws(pos) % i);
      SwapPermutes(s, i - 1, draws(pos) % i);
      ShuffledPermutes(t, draws, pos + 1, i - 1);
    }
  }

  /** `Collections.swap(list, i, j)`. */
  method Exchange<T>(list: array<T>, i: nat, j: nat)
    requires i < list.Length && j < list.Length
    modifies list
    ensures list[..] == Swap(old(list[..]), i, j)
  {
    list[i], list[j] := list[j], list[i];
  }

  /** `Collections.shuffle(list)`: reorders `list` in place using `size - 1` draws. */
  method Shuffle<T>(list: array<T>, rng: Rng)
    modifies list, rng
    ensures list[..] == Shuffled(old(list[..]), rng.draws, old(rng.pos), list.Length)
    ensures multiset(list[..]) == multiset(old(list[..]))
    ensures rng.pos == old(rng.pos) + (if list.Length > 1 then list.Length - 1 else 0)
  {
    var i := list.Length;
    while i > 1
      invariant 0 <= i <= list.Length
      invariant Shuffled(list[..], rng.draws, rng.pos, i) == Shuffled(old(list[..]), rng.draws, old(rng.pos), list.Length)
      invariant rng.pos + (if i > 1 then i - 1 else 0) == old(rng.pos) + (if list.Length > 1 then list.Length - 1 else 0)
    {
      var j := rng.NextInt(i);
      Exchange(list, i - 1, j);
      i := i - 1;
    }
    ShuffledPermutes(old(list[..]), rng.draws, old(rng.pos), list.Length);
  }
}
