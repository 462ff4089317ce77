/** Positions on a ring of `cap` slots, as probe loops and bitmap searches go round it. */
module Ring {
  /** Steps from position `home` to position `i`, going up and wrapping at `cap`. */
  function Dist(home: nat, i: nat, cap: nat): (d: nat)
    requires home < cap && i < cap
    ensures d < cap && (d == 0 <==> i == home)
  {
    if home <= i then i - home else i + cap - home
  }

  function Next(i: nat, cap: nat): (r: nat)
    requires i < cap
    ensures r < cap
  {
    if i + 1 == cap then 0 else i + 1
  }

  lemma DistNext(home: nat, i: nat, cap: nat)
    requires home < cap && i < cap
    ensures Dist(home, i, cap) + 1 < cap ==> Dist(home, Next(i, cap), cap) == Dist(home, i, cap) + 1
    ensures Dist(home, i, cap) + 1 == cap ==> Next(i, cap) == home
  {
  }

  lemma DistInjective(home: nat, i: nat, j: nat, cap: nat)
    requires home < cap && i < cap && j < cap
    ensures Dist(home, i, cap) == Dist(home, j, cap) ==> i == j
  {
  }

  lemma ModWraps(x: nat, cap: nat)
    requires 0 < cap && x < 2 * cap
    ensures x % cap == if x < cap then x else x - cap
  {
  }
}
