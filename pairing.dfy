/**
 * The two draws of the application. `realizar_sorteio` shuffles the names
 * once and gives each name the next one round the circle; the local draw
 * `realizar_sorteio_local` reshuffles a copy of the names until no name is
 * left at its own position.
 */
module Pairing {
  import opened Wrappers
  import opened Seqs

  /**
   * `random.shuffle(a)`, written as CPython writes it (Fisher-Yates from the
   * end). `rng(round, i)` is the random number the library draws for
   * position `i` in the `round`-th shuffle of one draw; `% (i + 1)` stands for
   * `randbelow(i + 1)`. Whatever the numbers, the array ends up holding a
   * rearrangement of what it held.
   */
  method Shuffle<T>(a: array<T>, rng: (nat, nat) -> nat, round: nat)
    modifies a
    ensures multiset(a[..]) == old(multiset(a[..]))
  {
    var i := a.Length;
    while i > 1
      invariant 0 <= i <= a.Length
      invariant multiset(a[..]) == old(multiset(a[..]))
    {
      i := i - 1;
      var j := rng(round, i) % (i + 1);
      a[i], a[j] := a[j], a[i];
    }
  }

  // ---------------------------------------------------------------------------
  // Local draw: rejection sampling
  // ---------------------------------------------------------------------------

  /** `s` rearranges `base` and leaves no name at its own position. */
  ghost predicate IsDerangementOf(base: seq<string>, s: seq<string>) {
    && |s| == |base|
    && multiset(s) == multiset(base)
    && forall i | 0 <= i < |base| :: s[i] != base[i]
  }

  /** Some name sits at its own position: the condition the local draw loops on. */
  ghost predicate HasCollision(nomes: seq<string>, sorteio: seq<string>) {
    exists i | 0 <= i < |nomes| && i < |sorteio| :: nomes[i] == sorteio[i]
  }

  /**
   * `any(nomes[i] == sorteio[i] for i in range(len(nomes)))`: the loop
   * condition of the local draw, stopping at the first collision.
   */
  method Collides(nomes: seq<string>, sorteio: seq<string>) returns (found: bool)
    requires |nomes| <= |sorteio|
    ensures found <==> HasCollision(nomes, sorteio)
  {
    var i := 0;
    while i < |nomes|
      invariant 0 <= i <= |nomes|
      invariant forall k | 0 <= k < i :: nomes[k] != sorteio[k]
    {
      if nomes[i] == sorteio[i] {
        return true;
      }
      i := i + 1;
    }
    return false;
  }

  /**
   * The pairing loop of `realizar_sorteio_local`: `sorteio` starts as a copy
   * of `nomes` and is shuffled in place while some name sits at its own
   * position. The source loops for as long as it takes; here at most
   * `maxShuffles` shuffles are made and None reports that they did not
   * suffice. `tried` records the arrangement after each shuffle: each one is
   * a rearrangement of `nomes`, and the loop goes on exactly while the
   * current arrangement has a collision. So it stops at the first
   * arrangement without one, and gives up only when every shuffle collided.
   */
  method RejectionDraw(nomes: seq<string>, rng: (nat, nat) -> nat, maxShuffles: nat)
    returns (sorteio: Option<seq<string>>, shuffles: nat, ghost tried: seq<seq<string>>)
    ensures shuffles <= maxShuffles && |tried| == shuffles
    ensures forall k | 0 <= k < |tried| :: |tried[k]| == |nomes| && multiset(tried[k]) == multiset(nomes)
    ensures forall k | 0 <= k < |tried| - 1 :: HasCollision(nomes, tried[k])
    ensures sorteio.Some? ==>
      && sorteio.value == (if shuffles == 0 then nomes else tried[shuffles - 1])
      && IsDerangementOf(nomes, sorteio.value)
    ensures sorteio.Some? && nomes != [] ==> shuffles >= 1
    ensures sorteio.None? ==>
      && shuffles == maxShuffles
      && forall k | 0 <= k < |tried| :: HasCollision(nomes, tried[k])
  {
    var a := new string[|nomes|](i requires 0 <= i < |nomes| => nomes[i]);
    assert a[..] == nomes;
    if nomes != [] {
      SelfCollides(nomes);
    }
    var clash := Collides(nomes, a[..]);
    shuffles := 0;
    tried := [];
    while clash && shuffles < maxShuffles
      invariant shuffles <= maxShuffles && |tried| == shuffles
      invariant a.Length == |nomes|
      invariant multiset(a[..]) == multiset(nomes)
      invariant forall k | 0 <= k < |tried| :: |tried[k]| == |nomes| && multiset(tried[k]) == multiset(nomes)
      invariant forall k | 0 <= k < |tried| - 1 :: HasCollision(nomes, tried[k])
      invariant clash ==> forall k | 0 <= k < |tried| :: HasCollision(nomes, tried[k])
      invariant a[..] == (if shuffles == 0 then nomes else tried[shuffles - 1])
      invariant clash <==> HasCollision(nomes, a[..])
      invariant nomes != [] && shuffles == 0 ==> clash
      decreases maxShuffles - shuffles
    {
      Shuffle(a, rng, shuffles);
      shuffles := shuffles + 1;
      tried := tried + [a[..]];
      clash := Collides(nomes, a[..]);
    }
    sorteio := if clash then None else Some(a[..]);
  }

  /** A non-empty list collides with itself, so the loop body runs at least once. */
  lemma SelfCollides(nomes: seq<string>)
    requires nomes != []
    ensures HasCollision(nomes, nomes)
  {
    assert nomes[0] == nomes[0];
  }

  /**
   * The local draw read as a map from giver to receiver is a bijection of
   * the names without fixed points: every name receives, every name gives,
   * and nobody draws themselves.
   */
  lemma DerangementIsBijection(nomes: seq<string>, sorteio: seq<string>)
    requires Distinct(nomes) && IsDerangementOf(nomes, sorteio)
    ensures Distinct(sorteio)
    ensures forall x :: x in sorteio <==> x in nomes
    ensures forall i | 0 <= i < |nomes| :: sorteio[i] != nomes[i]
  {
    PermutationKeepsDistinct(nomes, sorteio);
    PermutationKeepsElements(nomes, sorteio);
  }

  /** A single name has no derangement: the local draw cannot succeed with one participant. */
  lemma NoDerangementOfOne(nomes: seq<string>, s: seq<string>)
    requires |nomes| == 1
    ensures !IsDerangementOf(nomes, s)
  {
    if |s| == 1 && multiset(s) == multiset(nomes) {
      assert s[0] in multiset(nomes);
      assert s == [s[0]] && nomes == [nomes[0]];
    }
  }

  /** With two names the only derangement is the swap. */
  lemma PairDerangementIsSwap(a: string, b: string, s: seq<string>)
    requires a != b && IsDerangementOf([a, b], s)
    ensures s == [b, a]
  {
    assert s == [s[0], s[1]];
    assert s[0] in multiset(s) && s[1] in multiset(s);
    assert multiset(s) == multiset{a, b};
  }

  // ---------------------------------------------------------------------------
  // E-mail draw: one cycle through the shuffled names
  // ---------------------------------------------------------------------------

  /**
   * `sorteio` maps the name at position i of `nomes` to the one at the next
   * position round the circle, (i + 1) mod n.
   */
  ghost predicate IsCyclicPairing(nomes: seq<string>, sorteio: map<string, string>) {
    && sorteio.Keys == (set x | x in nomes)
    && forall i {:trigger sorteio[nomes[i]]} | 0 <= i < |nomes| ::
         sorteio[nomes[i]] == nomes[Next(i, |nomes|)]
  }

  /** The `for` loop of `realizar_sorteio` that fills the dict `sorteio`. */
  method CyclicPairing(nomes: seq<string>) returns (sorteio: map<string, string>)
    requires Distinct(nomes)
    ensures IsCyclicPairing(nomes, sorteio)
  {
    sorteio := map[];
    for i := 0 to |nomes|
      invariant sorteio.Keys == (set k | 0 <= k < i :: nomes[k])
      invariant forall k | 0 <= k < i :: sorteio[nomes[k]] == nomes[Next(k, |nomes|)]
    {
      NextIsSuccessorMod(i, |nomes|);
      sorteio := sorteio[nomes[i] := nomes[(i + 1) % |nomes|]];
    }
    assert (set k | 0 <= k < |nomes| :: nomes[k]) == (set x | x in nomes);
  }

  /** The name reached from `x` by following the pairing `k` times. */
  function Follow(sorteio: map<string, string>, x: string, k: nat): string
    decreases k
  {
    if k == 0 || x !in sorteio then x else Follow(sorteio, sorteio[x], k - 1)
  }

  /** The position after i in a circle of n positions. */
  function Next(i: nat, n: nat): nat {
    if i + 1 < n then i + 1 else 0
  }

  /** The source's `(i + 1) % len(nomes)` is the next position round the circle. */
  lemma NextIsSuccessorMod(i: nat, n: nat)
    requires i < n
    ensures (i + 1) % n == Next(i, n)
  {
  }

  /** Following the cyclic pairing k <= n times from position i lands k positions further round the circle. */
  lemma {:induction false} FollowCyclic(nomes: seq<string>, sorteio: map<string, string>, i: nat, k: nat)
    requires IsCyclicPairing(nomes, sorteio) && i < |nomes| && k <= |nomes|
    ensures Follow(sorteio, nomes[i], k)
      == nomes[if i + k < |nomes| then i + k else i + k - |nomes|]
    decreases k
  {
    var n := |nomes|;
    if k > 0 {
      FollowCyclic(nomes, sorteio, Next(i, n), k - 1);
    }
  }

  /** Following the pairing from `x` reaches `y` in fewer than `bound` steps. */
  ghost predicate Reaches(sorteio: map<string, string>, x: string, y: string, bound: nat) {
    exists k | 0 <= k < bound :: Follow(sorteio, x, k) == y
  }

  /** Where a name stands in the list. */
  lemma PositionOf(nomes: seq<string>, x: string) returns (i: nat)
    requires x in nomes
    ensures i < |nomes| && nomes[i] == x
  {
    i :| 0 <= i < |nomes| && nomes[i] == x;
  }

  /** With two or more distinct names, nobody is paired with themselves. */
  lemma CyclicNoSelfPair(nomes: seq<string>, sorteio: map<string, string>, i: nat)
    requires Distinct(nomes) && |nomes| >= 2 && IsCyclicPairing(nomes, sorteio) && i < |nomes|
    ensures sorteio[nomes[i]] != nomes[i]
  {
    assert sorteio[nomes[i]] == nomes[Next(i, |nomes|)];
  }

  /** Different givers are paired with different receivers. */
  lemma CyclicOneToOne(nomes: seq<string>, sorteio: map<string, string>, i: nat, j: nat)
    requires Distinct(nomes) && IsCyclicPairing(nomes, sorteio) && i < j < |nomes|
    ensures sorteio[nomes[i]] != sorteio[nomes[j]]
  {
    assert sorteio[nomes[i]] == nomes[Next(i, |nomes|)];
    assert sorteio[nomes[j]] == nomes[Next(j, |nomes|)];
  }

  /** Every name is somebody's receiver: the one before it round the circle. */
  lemma CyclicOnto(nomes: seq<string>, sorteio: map<string, string>, j: nat) returns (i: nat)
    requires IsCyclicPairing(nomes, sorteio) && j < |nomes|
    ensures i < |nomes| && sorteio[nomes[i]] == nomes[j]
  {
    i := if j == 0 then |nomes| - 1 else j - 1;
    assert sorteio[nomes[i]] == nomes[Next(i, |nomes|)];
  }

  /** Nobody is paired with themselves. */
  lemma CyclicPairingNoSelf(nomes: seq<string>, sorteio: map<string, string>)
    requires Distinct(nomes) && |nomes| >= 2 && IsCyclicPairing(nomes, sorteio)
    ensures forall x | x in sorteio :: sorteio[x] != x
  {
    forall x | x in sorteio ensures sorteio[x] != x {
      var i := PositionOf(nomes, x);
      CyclicNoSelfPair(nomes, sorteio, i);
    }
  }

  /** The receivers are exactly the givers. */
  lemma CyclicPairingOnto(nomes: seq<string>, sorteio: map<string, string>)
    requires IsCyclicPairing(nomes, sorteio)
    ensures sorteio.Values == sorteio.Keys
  {
    forall y | y in sorteio ensures y in sorteio.Values {
      var j := PositionOf(nomes, y);
      var i := CyclicOnto(nomes, sorteio, j);
    }
    forall y | y in sorteio.Values ensures y in sorteio {
      var x :| x in sorteio && sorteio[x] == y;
      var i := PositionOf(nomes, x);
      assert sorteio[nomes[i]] == nomes[Next(i, |nomes|)];
    }
  }

  /** No two givers share a receiver. */
  lemma CyclicPairingInjective(nomes: seq<string>, sorteio: map<string, string>)
    requires Distinct(nomes) && IsCyclicPairing(nomes, sorteio)
    ensures forall x, y | x in sorteio && y in sorteio && x != y :: sorteio[x] != sorteio[y]
  {
    forall x, y | x in sorteio && y in sorteio && x != y ensures sorteio[x] != sorteio[y] {
      var i := PositionOf(nomes, x);
      var j := PositionOf(nomes, y);
      if i < j { CyclicOneToOne(nomes, sorteio, i, j); } else { CyclicOneToOne(nomes, sorteio, j, i); }
    }
  }

  /**
   * For at least two distinct names the cyclic pairing is a derangement of
   * them: its receivers are exactly its givers, it is one-to-one,
   * and no name is paired with itself.
   */
  lemma CyclicPairingIsDerangement(nomes: seq<string>, sorteio: map<string, string>)
    requires Distinct(nomes) && |nomes| >= 2 && IsCyclicPairing(nomes, sorteio)
    ensures sorteio.Values == sorteio.Keys
    ensures forall x | x in sorteio :: sorteio[x] != x
    ensures forall x, y | x in sorteio && y in sorteio && x != y :: sorteio[x] != sorteio[y]
  {
    CyclicPairingNoSelf(nomes, sorteio);
    CyclicPairingOnto(nomes, sorteio);
    CyclicPairingInjective(nomes, sorteio);
  }

  /** Along the cycle, a name does not come back before n steps. */
  lemma FollowNotBackEarly(nomes: seq<string>, sorteio: map<string, string>, i: nat, k: nat)
    requires Distinct(nomes) && IsCyclicPairing(nomes, sorteio) && i < |nomes| && 0 < k < |nomes|
    ensures Follow(sorteio, nomes[i], k) != nomes[i]
  {
    FollowCyclic(nomes, sorteio, i, k);
  }

  /** Along the cycle, every name is reached from position i, within n steps. */
  lemma FollowReaches(nomes: seq<string>, sorteio: map<string, string>, i: nat, j: nat) returns (k: nat)
    requires IsCyclicPairing(nomes, sorteio) && i < |nomes| && j < |nomes|
    ensures k < |nomes| && Follow(sorteio, nomes[i], k) == nomes[j]
  {
    k := if i <= j then j - i else j + |nomes| - i;
    FollowCyclic(nomes, sorteio, i, k);
  }

  /**
   * The cyclic pairing is a single cycle through all names: from any name,
   * following it reaches every name within n steps, comes back after exactly
   * n steps, and not earlier.
   */
  lemma CyclicPairingIsOneCycle(nomes: seq<string>, sorteio: map<string, string>, x: string)
    requires Distinct(nomes) && IsCyclicPairing(nomes, sorteio) && x in sorteio
    ensures Follow(sorteio, x, |nomes|) == x
    ensures forall k | 0 < k < |nomes| :: Follow(sorteio, x, k) != x
    ensures forall y | y in sorteio :: Reaches(sorteio, x, y, |nomes|)
  {
    var i := PositionOf(nomes, x);
    FollowCyclic(nomes, sorteio, i, |nomes|);
    forall k | 0 < k < |nomes| ensures Follow(sorteio, x, k) != x {
      FollowNotBackEarly(nomes, sorteio, i, k);
    }
    forall y | y in sorteio ensures Reaches(sorteio, x, y, |nomes|) {
      var j := PositionOf(nomes, y);
      var k := FollowReaches(nomes, sorteio, i, j);
      assert 0 <= k < |nomes| && Follow(sorteio, x, k) == y;
    }
  }
}
