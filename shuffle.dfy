/**
 * The in-place Fisher-Yates shuffle of index.js (`shuffle`), with Math.random()
 * modelled as an oracle (see Chooser).
 */
module Shuffling {

  /** The range of Math.random(): a real in [0, 1). */
  type Unit = r: real | 0.0 <= r < 1.0

  /**
   * Math.floor(u * counter) for a draw `u` of Math.random(): always a valid
   * slot among `counter` slots.
   */
  function ScaledIndex(u: Unit, counter: nat): (index: nat)
    requires counter > 0
    ensures index < counter
  {
    ScaleBelow(u, counter);
    (u * counter as real).Floor
  }

  lemma ScaleBelow(u: Unit, counter: nat)
    requires counter > 0
    ensures 0.0 <= u * counter as real < counter as real
  {
    assert counter as real - u * counter as real == (1.0 - u) * counter as real;
  }

  /**
   * The randomness the generator consumes: `choose(k, n)` is the value of
   * Math.floor(Math.random() * n) when the k-th call of Math.random() is the
   * one made. Every draw the source makes has this form.
   */
  type Chooser = choose: (nat, nat) -> nat | forall k: nat, n: nat :: 0 < n ==> choose(k, n) < n
    witness (k: nat, n: nat) => 0

  /** The index the k-th draw selects among `counter` slots. */
  function Draw(random: Chooser, k: nat, counter: nat): (index: nat)
    requires counter > 0
    ensures index < counter
  {
    random(k, counter)
  }

  /**
   * The chooser of a stream of Math.random() results: every stream of reals in
   * [0, 1), scaled and floored as index.js:59 does, meets the Chooser
   * constraint, so the model's oracle covers every run of the source.
   */
  function FromDraws(draws: nat -> Unit): (choose: Chooser)
    ensures forall k: nat, n: nat :: 0 < n ==> choose(k, n) == ScaledIndex(draws(k), n)
  {
    var choose: (nat, nat) -> nat := (k: nat, n: nat) => if n == 0 then 0 else ScaledIndex(draws(k), n);
    assert forall k: nat, n: nat :: 0 < n ==> choose(k, n) < n by {
      forall k: nat, n: nat | 0 < n ensures choose(k, n) < n {
        assert choose(k, n) == ScaledIndex(draws(k), n);
      }
    }
    choose
  }

  /** The sequence `s` with the elements at `i` and `j` exchanged. */
  function Swap<T>(s: seq<T>, i: nat, j: nat): (r: seq<T>)
    requires i < |s| && j < |s|
    ensures |r| == |s| && r[i] == s[j] && r[j] == s[i]
    ensures forall k :: 0 <= k < |s| && k != i && k != j ==> r[k] == s[k]
  {
    seq(|s|, k requires 0 <= k < |s| => if k == i then s[j] else if k == j then s[i] else s[k])
  }

  /**
   * The array after the first `steps` iterations of the loop of `shuffle`,
   * whose first draw is number `next`. Iteration i (from 0) starts with
   * `counter == |s| - i`, draws an index below `counter`, decrements `counter`
   * and swaps slot `counter` with the drawn slot.
   */
  function ShuffleSteps<T>(s: seq<T>, random: Chooser, next: nat, steps: nat): (r: seq<T>)
    requires steps <= |s|
    ensures |r| == |s|
  {
    if steps == 0 then s
    else
      var counter := |s| - (steps - 1);
      var index := Draw(random, next + (steps - 1), counter);
      Swap(ShuffleSteps(s, random, next, steps - 1), counter - 1, index)
  }

  /** The whole shuffle of `s`, whose first draw is number `next`. */
  function Shuffled<T>(s: seq<T>, random: Chooser, next: nat): (r: seq<T>)
    ensures |r| == |s|
  {
    ShuffleSteps(s, random, next, |s|)
  }

  /** Exchanging two elements keeps the multiset of elements. */
  lemma SwapPermutes<T>(s: seq<T>, i: nat, j: nat)
    requires i < |s| && j < |s|
    ensures multiset(Swap(s, i, j)) == multiset(s)
  {
    assert Swap(s, i, j) == s[i := s[j]][j := s[i]];
  }

  /** Every prefix of the loop keeps the multiset of elements. */
  lemma {:induction false} ShuffleStepsPermute<T>(s: seq<T>, random: Chooser, next: nat, steps: nat)
    requires steps <= |s|
    ensures multiset(ShuffleSteps(s, random, next, steps)) == multiset(s)
  {
    if steps > 0 {
      var prev := ShuffleSteps(s, random, next, steps - 1);
      ShuffleStepsPermute(s, random, next, steps - 1);
      var counter := |s| - (steps - 1);
      var index := Draw(random, next + (steps - 1), counter);
      SwapPermutes(prev, counter - 1, index);
    }
  }

  /**
   * Shuffling permutes: the result has the same length and the same elements
   * with the same multiplicities, so in particular the same members.
   */
  lemma ShuffledIsPermutation<T>(s: seq<T>, random: Chooser, next: nat)
    ensures |Shuffled(s, random, next)| == |s|
    ensures multiset(Shuffled(s, random, next)) == multiset(s)
    ensures forall x :: x in s <==> x in Shuffled(s, random, next)
  {
    var r := Shuffled(s, random, next);
    ShuffleStepsPermute(s, random, next, |s|);
    forall x ensures x in s <==> x in r {
      assert x in s <==> x in multiset(s);
      assert x in r <==> x in multiset(r);
    }
  }

  /**
   * One iteration of the loop: exchanging the slot the next draw selects with
   * the last unprocessed slot carries the state after `done` iterations to the
   * state after `done + 1`.
   */
  lemma ShuffleStepsNext<T>(s: seq<T>, random: Chooser, next: nat, done: nat, before: seq<T>, now: seq<T>, i: nat, j: nat)
    requires done < |s| && before == ShuffleSteps(s, random, next, done)
    requires i == |s| - done - 1 && j == Draw(random, next + done, |s| - done)
    requires |now| == |s| && now[i] == before[j] && now[j] == before[i]
    requires forall k :: 0 <= k < |now| && k != i && k != j ==> now[k] == before[k]
    ensures now == ShuffleSteps(s, random, next, done + 1)
  {
    assert now == Swap(before, i, j);
  }

  /**
   * `shuffle(arr)`: shuffles `arr` in place, consuming one draw per slot, and
   * returns the number of the next unused draw.
   */
  method Shuffle<T>(arr: array<T>, random: Chooser, next: nat) returns (after: nat)
    modifies arr
    ensures arr[..] == Shuffled(old(arr[..]), random, next)
    ensures after == next + arr.Length
  {
    ghost var original := arr[..];
    ghost var done := 0;
    var counter := arr.Length;
    after := next;
    while counter > 0
      invariant 0 <= counter <= arr.Length && done == arr.Length - counter
      invariant after == next + done
      invariant arr[..] == ShuffleSteps(original, random, next, done)
    {
      ghost var before := arr[..];
      var index := Draw(random, after, counter);
      after := after + 1;
      counter := counter - 1;
      var temp := arr[counter];
      arr[counter] := arr[index];
      arr[index] := temp;
      ShuffleStepsNext(original, random, next, done, before, arr[..], counter, index);
      done := done + 1;
    }
  }
}
