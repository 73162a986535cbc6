/** `random.sample(population, k)`: k items drawn without replacement.

    The random generator is a parameter `rng: nat -> nat`, read at consecutive
    steps `t`, `t + 1`, ...; step `t + i` picks the i-th item among those not
    chosen yet. The model does not reproduce how Python turns random bits into
    a choice; it pins down the set of possible outcomes, which is exactly the
    set of ordered choices of k distinct positions (DrawAtPositions one way,
    EveryDrawReachable the other). */
module Sampling {
  import Seqs

  datatype Sample<T> = Chosen(items: seq<T>) | LargerThanPopulation

  /** `idx` is an ordered choice of `k` distinct positions below `n`. */
  predicate IsDraw(idx: seq<nat>, k: nat, n: nat) {
    |idx| == k && (forall i :: 0 <= i < |idx| ==> idx[i] < n) && Seqs.NoDuplicates(idx)
  }

  /** The items of `pool` at the positions `idx`, in that order. */
  function Select<T>(pool: seq<T>, idx: seq<nat>): (r: seq<T>)
    requires forall i :: 0 <= i < |idx| ==> idx[i] < |pool|
    ensures |r| == |idx|
  {
    seq(|idx|, i requires 0 <= i < |idx| => pool[idx[i]])
  }

  /** `s` with the item at position `j` taken out. */
  function Without<T>(s: seq<T>, j: nat): (r: seq<T>)
    requires j < |s|
    ensures |r| == |s| - 1
  {
    s[..j] + s[j + 1..]
  }

  lemma WithoutRemovesOne<T>(s: seq<T>, j: nat)
    requires j < |s|
    ensures multiset(s) == multiset{s[j]} + multiset(Without(s, j))
  {
    assert s == s[..j] + [s[j]] + s[j + 1..];
  }

  /** An item followed by part of what is left once it is removed from the
      pool stays within the pool. */
  lemma PutBack<T>(s: seq<T>, j: nat, d: seq<T>)
    requires j < |s| && multiset(d) <= multiset(Without(s, j))
    ensures multiset([s[j]] + d) <= multiset(s)
  {
    WithoutRemovesOne(s, j);
    assert multiset([s[j]] + d) == multiset{s[j]} + multiset(d);
  }

  /** The draw itself: each step removes the item it picks from the pool. */
  function Draw<T>(pool: seq<T>, k: nat, rng: nat -> nat, t: nat): (r: seq<T>)
    requires k <= |pool|
    ensures |r| == k
    decreases k
  {
    if k == 0 then []
    else
      var j := rng(t) % |pool|;
      [pool[j]] + Draw(Without(pool, j), k - 1, rng, t + 1)
  }

  /** No item is drawn more often than it occurs in the pool. */
  lemma {:induction false} DrawWithoutReplacement<T>(pool: seq<T>, k: nat, rng: nat -> nat, t: nat)
    requires k <= |pool|
    ensures multiset(Draw(pool, k, rng, t)) <= multiset(pool)
    decreases k
  {
    if k > 0 {
      var j := rng(t) % |pool|;
      DrawWithoutReplacement(Without(pool, j), k - 1, rng, t + 1);
      PutBack(pool, j, Draw(Without(pool, j), k - 1, rng, t + 1));
    }
  }

  /** `random.sample(population, k)`: fails when the population is smaller
      than `k`, and otherwise returns exactly `k` items of it, none more often
      than it occurs in the population. */
  function SampleOf<T>(population: seq<T>, k: nat, rng: nat -> nat, t: nat): (r: Sample<T>)
    ensures r.LargerThanPopulation? <==> |population| < k
    ensures r.Chosen? ==> |r.items| == k && multiset(r.items) <= multiset(population)
  {
    if |population| < k then LargerThanPopulation
    else
      DrawWithoutReplacement(population, k, rng, t);
      Chosen(Draw(population, k, rng, t))
  }

  /** A generator that always yields 0 makes a draw take the first items. */
  lemma {:induction false} ZeroGeneratorTakesPrefix<T>(pool: seq<T>, k: nat, rng: nat -> nat, t: nat)
    requires k <= |pool|
    requires forall s :: rng(s) == 0
    ensures Draw(pool, k, rng, t) == pool[..k]
    decreases k
  {
    if k > 0 {
      assert rng(t) % |pool| == 0;
      var rest := Without(pool, 0);
      assert rest == pool[1..];
      assert Draw(pool, k, rng, t) == [pool[0]] + Draw(rest, k - 1, rng, t + 1);
      ZeroGeneratorTakesPrefix(rest, k - 1, rng, t + 1);
      Seqs.TakeFirst(pool, k);
    }
  }

  // ---------------------------------------------------------------------------
  // The positions a draw takes

  /** Renumbers positions of a pool with position `j` removed as positions
      of the full pool. */
  function Lift(idx: seq<nat>, j: nat): (r: seq<nat>)
    ensures |r| == |idx|
  {
    seq(|idx|, i requires 0 <= i < |idx| => if idx[i] < j then idx[i] else idx[i] + 1)
  }

  /** The positions in the original pool of the items Draw picks, in order:
      always `k` distinct positions of the pool. */
  function Positions(n: nat, k: nat, rng: nat -> nat, t: nat): (idx: seq<nat>)
    requires k <= n
    ensures IsDraw(idx, k, n)
    decreases k
  {
    if k == 0 then []
    else
      var j := rng(t) % n;
      var rest := Positions(n - 1, k - 1, rng, t + 1);
      var lifted := Lift(rest, j);
      assert forall i :: 0 <= i < |lifted| ==> lifted[i] != j && lifted[i] < n;
      assert Seqs.NoDuplicates(lifted) by {
        forall a, b | 0 <= a < b < |lifted|
          ensures lifted[a] != lifted[b]
        {
          assert rest[a] != rest[b];
        }
      }
      [j] + lifted
  }

  lemma WithoutAt<T>(s: seq<T>, j: nat, i: nat)
    requires j < |s| && i < |s| - 1
    ensures Without(s, j)[i] == s[if i < j then i else i + 1]
  {
  }

  /** A draw picks the pool's items at its positions. */
  lemma {:induction false} DrawAtPositions<T>(pool: seq<T>, k: nat, rng: nat -> nat, t: nat)
    requires k <= |pool|
    ensures Draw(pool, k, rng, t) == Select(pool, Positions(|pool|, k, rng, t))
  {
    if k > 0 {
      var j := rng(t) % |pool|;
      var rest := Without(pool, j);
      var p := Positions(|rest|, k - 1, rng, t + 1);
      var tail := Draw(rest, k - 1, rng, t + 1);
      DrawAtPositions(rest, k - 1, rng, t + 1);
      assert tail == Select(rest, p);
      var lhs := [pool[j]] + tail;
      var positions := [j] + Lift(p, j);
      assert Draw(pool, k, rng, t) == lhs;
      assert Positions(|pool|, k, rng, t) == positions;
      var rhs := Select(pool, positions);
      forall i | 0 <= i < k
        ensures lhs[i] == rhs[i]
      {
        if i > 0 {
          var q := p[i - 1];
          assert q < |rest|;
          assert lhs[i] == tail[i - 1] == rest[q];
          WithoutAt(pool, j, q);
          assert positions[i] == Lift(p, j)[i - 1] == if q < j then q else q + 1;
          assert rhs[i] == pool[positions[i]];
        } else {
          assert rhs[0] == pool[j];
        }
      }
      assert lhs == rhs;
    }
  }

  // ---------------------------------------------------------------------------
  // Every ordered choice of distinct positions is a possible draw

  /** The inverse of Lift on positions other than `j`. */
  function Lower(idx: seq<nat>, j: nat): (r: seq<nat>)
    ensures |r| == |idx|
  {
    seq(|idx|, i requires 0 <= i < |idx| => if idx[i] > j then idx[i] - 1 else idx[i])
  }

  /** The generator values that make Draw pick the positions `idx`: each
      position renumbered among the positions not yet chosen. */
  function Relative(idx: seq<nat>): (r: seq<nat>)
    ensures |r| == |idx|
    decreases |idx|
  {
    if idx == [] then [] else [idx[0]] + Relative(Lower(idx[1..], idx[0]))
  }

  /** Renumbering the positions after the first among those left gives a
      draw from a pool one smaller, and Lift undoes the renumbering. */
  lemma LowerAfterFirst(n: nat, idx: seq<nat>)
    requires IsDraw(idx, |idx|, n) && 0 < |idx| <= n
    ensures IsDraw(Lower(idx[1..], idx[0]), |idx| - 1, n - 1)
    ensures Lift(Lower(idx[1..], idx[0]), idx[0]) == idx[1..]
  {
    var j := idx[0];
    var lowered := Lower(idx[1..], j);
    forall a | 0 <= a < |lowered|
      ensures lowered[a] < n - 1
    {
      assert idx[1..][a] == idx[a + 1] != idx[0];
    }
    forall a, b | 0 <= a < b < |lowered|
      ensures lowered[a] != lowered[b]
    {
      assert idx[a + 1] != idx[b + 1];
    }
    var lifted := Lift(lowered, j);
    forall a | 0 <= a < |lifted|
      ensures lifted[a] == idx[1..][a]
    {
      assert idx[1..][a] == idx[a + 1] != idx[0];
    }
  }

  /** Every ordered choice of `k` distinct positions comes out of Draw for a
      generator that yields its Relative values: no outcome of sampling
      without replacement is missing from the model. */
  lemma {:induction false} EveryDrawReachable(n: nat, idx: seq<nat>, rng: nat -> nat, t: nat)
    requires IsDraw(idx, |idx|, n) && |idx| <= n
    requires forall i :: 0 <= i < |idx| ==> rng(t + i) == Relative(idx)[i]
    ensures Positions(n, |idx|, rng, t) == idx
    decreases |idx|
  {
    if idx != [] {
      var lowered := Lower(idx[1..], idx[0]);
      GeneratorAfterFirst(idx, rng, t);
      assert rng(t) % n == idx[0];
      LowerAfterFirst(n, idx);
      EveryDrawReachable(n - 1, lowered, rng, t + 1);
      PositionsFirst(n, idx, rng, t, lowered);
    } else {
      assert Positions(n, 0, rng, t) == [];
    }
  }

  /** A generator that yields the Relative values of `idx` from step `t` on
      yields `idx[0]` at `t` and the Relative values of the renumbered rest
      from `t + 1` on. */
  lemma GeneratorAfterFirst(idx: seq<nat>, rng: nat -> nat, t: nat)
    requires idx != []
    requires forall i :: 0 <= i < |idx| ==> rng(t + i) == Relative(idx)[i]
    ensures rng(t) == idx[0]
    ensures forall i :: 0 <= i < |idx| - 1 ==> rng(t + 1 + i) == Relative(Lower(idx[1..], idx[0]))[i]
  {
    var rel := Relative(Lower(idx[1..], idx[0]));
    assert Relative(idx) == [idx[0]] + rel;
    assert rng(t + 0) == Relative(idx)[0] == idx[0];
    forall i | 0 <= i < |idx| - 1
      ensures rng(t + 1 + i) == rel[i]
    {
      assert rng(t + (i + 1)) == Relative(idx)[i + 1];
    }
  }

  /** The first step of Positions: the generator's first value picks the
      first position, and the rest are renumbered around it. */
  lemma PositionsFirst(n: nat, idx: seq<nat>, rng: nat -> nat, t: nat, rest: seq<nat>)
    requires 0 < |idx| <= n && rng(t) % n == idx[0]
    requires Positions(n - 1, |idx| - 1, rng, t + 1) == rest && Lift(rest, idx[0]) == idx[1..]
    ensures Positions(n, |idx|, rng, t) == idx
  {
    Seqs.SplitFirst(idx);
  }

  /** A generator that yields the Relative values of `idx` from step 0 on. */
  function GeneratorFor(idx: seq<nat>): nat -> nat {
    var rel := Relative(idx);
    (s: nat) => if s < |rel| then rel[s] else 0
  }

  /** Every ordered choice of distinct positions of the pool is what some
      generator makes Draw return. */
  lemma DrawReachedBy<T>(pool: seq<T>, idx: seq<nat>)
    requires IsDraw(idx, |idx|, |pool|) && |idx| <= |pool|
    ensures Draw(pool, |idx|, GeneratorFor(idx), 0) == Select(pool, idx)
  {
    var rng := GeneratorFor(idx);
    forall i | 0 <= i < |idx|
      ensures rng(0 + i) == Relative(idx)[i]
    {
    }
    EveryDrawReachable(|pool|, idx, rng, 0);
    DrawAtPositions(pool, |idx|, rng, 0);
  }
}
