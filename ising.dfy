// Metropolis Monte Carlo for the one-dimensional Ising chain with periodic
// boundary conditions: the sweep `mcmove`, the energy `calcEnergy` and the
// magnetisation `calcMag`.
//
// A configuration is a sequence of integer spins (the source keeps them in a
// numpy int array of -1/+1). The two random sources of `mcmove` become
// parameters: `sites` holds the site drawn by `randint(0, N)` in each iteration
// and `us` is the stream of uniform draws that `rand()` would return, consumed
// only when the source actually calls `rand()`. The Boltzmann factor
// `exp(-cost*beta)` is the abstract function `boltz`.
module Ising {

  /** Every entry is a spin, -1 or +1. */
  predicate IsSpins(s: seq<int>) {
    forall i :: 0 <= i < |s| ==> s[i] == 1 || s[i] == -1
  }

  /** The periodic right neighbour `(a+1) % N`. */
  function Right(n: int, a: int): (r: int)
    requires 0 <= a < n
    ensures 0 <= r < n
    ensures r == if a == n - 1 then 0 else a + 1
  {
    (a + 1) % n
  }

  /** The periodic left neighbour `(a-1) % N` (Python's `%` is never negative here). */
  function Left(n: int, a: int): (r: int)
    requires 0 <= a < n
    ensures 0 <= r < n
    ensures r == if a == 0 then n - 1 else a - 1
  {
    (a - 1) % n
  }

  /** The neighbour sum of site `a` as written: `s[a+1] + 2*s[a] + s[a-1]`. */
  function NeighborSum(s: seq<int>, a: int): int
    requires 0 <= a < |s|
  {
    s[Right(|s|, a)] + 2 * s[a] + s[Left(|s|, a)]
  }

  /** The energy cost `2*s*nb` of flipping site `a`. */
  function Cost(s: seq<int>, a: int): int
    requires 0 <= a < |s|
  {
    2 * s[a] * NeighborSum(s, a)
  }

  /** Because `nb` counts the site itself twice, the cost of a spin chain
      is `2*s*(left+right) + 4`, one of 0, 4 or 8: never negative. */
  lemma CostValues(s: seq<int>, a: int)
    requires IsSpins(s) && 0 <= a < |s|
    ensures Cost(s, a) == 2 * s[a] * (s[Right(|s|, a)] + s[Left(|s|, a)]) + 4
    ensures Cost(s, a) == 0 || Cost(s, a) == 4 || Cost(s, a) == 8
  {
    var l, c, r := s[Left(|s|, a)], s[a], s[Right(|s|, a)];
    assert c * c == 1;
    if c == 1 {
      assert Cost(s, a) == 2 * (r + l) + 4;
    } else {
      assert Cost(s, a) == -2 * (r + l) + 4;
    }
  }

  /** The state of a sweep: the configuration and how many uniform draws
      `rand()` has consumed so far. */
  datatype Chain = Chain(config: seq<int>, drawn: nat)

  /** One iteration of the `for i in range(N)` loop of `mcmove` at site `a`:
      flip when the cost is negative without calling `rand()`, otherwise call
      `rand()` once and flip exactly when it is below `boltz(cost)`. */
  function Move(ch: Chain, a: int, us: seq<real>, boltz: int -> real): (r: Chain)
    requires 0 <= a < |ch.config|
    requires ch.drawn < |us|
    ensures |r.config| == |ch.config|
    ensures forall j :: 0 <= j < |ch.config| && j != a ==> r.config[j] == ch.config[j]
    ensures r.config[a] == ch.config[a] || r.config[a] == -ch.config[a]
    ensures r.drawn == if Cost(ch.config, a) < 0 then ch.drawn else ch.drawn + 1
  {
    var s := ch.config[a];
    var cost := Cost(ch.config, a);
    if cost < 0 then
      Chain(ch.config[a := -s], ch.drawn)
    else if us[ch.drawn] < boltz(cost) then
      Chain(ch.config[a := -s], ch.drawn + 1)
    else
      Chain(ch.config[a := s], ch.drawn + 1)
  }

  /** Whether every drawn site lies on the chain. */
  predicate SitesIn(sites: seq<int>, n: int) {
    forall k :: 0 <= k < |sites| ==> 0 <= sites[k] < n
  }

  /** The state after the first `i` iterations of `mcmove`. */
  function Sweep(s: seq<int>, sites: seq<int>, us: seq<real>, boltz: int -> real, i: nat): (r: Chain)
    requires i <= |sites| <= |us|
    requires SitesIn(sites, |s|)
    ensures |r.config| == |s|
    ensures r.drawn <= i
    decreases i
  {
    if i == 0 then Chain(s, 0)
    else Move(Sweep(s, sites, us, boltz, i - 1), sites[i - 1], us, boltz)
  }

  /** The flip rule on a spin chain: the `cost < 0` branch never fires, so
      `rand()` is called exactly once and the spin at `a` is negated exactly
      when that draw is below the Boltzmann factor; every other spin stays. */
  lemma MoveOnSpins(ch: Chain, a: int, us: seq<real>, boltz: int -> real)
    requires IsSpins(ch.config) && 0 <= a < |ch.config| && ch.drawn < |us|
    ensures Move(ch, a, us, boltz).drawn == ch.drawn + 1
    ensures Move(ch, a, us, boltz).config ==
      ch.config[a := if us[ch.drawn] < boltz(Cost(ch.config, a)) then -ch.config[a] else ch.config[a]]
    ensures IsSpins(Move(ch, a, us, boltz).config)
  {
    CostValues(ch.config, a);
  }

  /** After any number of iterations the chain still holds only spins, and
      every iteration has consumed exactly one uniform draw. */
  lemma {:induction false} SweepOnSpins(s: seq<int>, sites: seq<int>, us: seq<real>, boltz: int -> real, i: nat)
    requires i <= |sites| <= |us| && SitesIn(sites, |s|) && IsSpins(s)
    ensures IsSpins(Sweep(s, sites, us, boltz, i).config)
    ensures Sweep(s, sites, us, boltz, i).drawn == i
  {
    if i > 0 {
      SweepOnSpins(s, sites, us, boltz, i - 1);
      MoveOnSpins(Sweep(s, sites, us, boltz, i - 1), sites[i - 1], us, boltz);
    }
  }

  /** One more iteration of the sweep is one more `Move`. */
  lemma SweepStep(s: seq<int>, sites: seq<int>, us: seq<real>, boltz: int -> real, i: nat)
    requires i < |sites| <= |us| && SitesIn(sites, |s|)
    ensures Sweep(s, sites, us, boltz, i + 1) == Move(Sweep(s, sites, us, boltz, i), sites[i], us, boltz)
  {
  }

  /** One iteration of the loop of `mcmove` on the array at site `a`: the
      state afterwards is `Move` of the state before. */
  method FlipStep(config: array<int>, a: int, drawn: nat, us: seq<real>, boltz: int -> real)
    returns (drawn': nat)
    requires 0 <= a < config.Length && drawn < |us|
    modifies config
    ensures Chain(config[..], drawn') == Move(Chain(old(config[..]), drawn), a, us, boltz)
  {
    ghost var before := Chain(config[..], drawn);
    var n := config.Length;
    var s := config[a];
    var nb := config[Right(n, a)] + 2 * config[a] + config[Left(n, a)];
    var cost := 2 * s * nb;
    assert cost == Cost(before.config, a);
    drawn' := drawn;
    if cost < 0 {
      s := s * -1;
    } else {
      var u := us[drawn];
      drawn' := drawn + 1;
      if u < boltz(cost) {
        s := s * -1;
      }
    }
    assert Chain(before.config[a := s], drawn') == Move(before, a, us, boltz);
    config[a] := s;
    assert config[..] == before.config[a := s];
  }

  /** `mcmove(config, N, beta)`: `N` single-site Metropolis updates in place.
      Returns how many uniform draws were consumed. */
  method McMove(config: array<int>, n: int, sites: seq<int>, us: seq<real>, boltz: int -> real)
    returns (drawn: nat)
    requires n == config.Length
    requires |sites| == n <= |us|
    requires SitesIn(sites, n)
    modifies config
    ensures Chain(config[..], drawn) == Sweep(old(config[..]), sites, us, boltz, n)
    ensures IsSpins(old(config[..])) ==> IsSpins(config[..]) && drawn == n
  {
    drawn := 0;
    for i := 0 to n
      invariant Chain(config[..], drawn) == Sweep(old(config[..]), sites, us, boltz, i)
    {
      drawn := FlipStep(config, sites[i], drawn, us, boltz);
      SweepStep(old(config[..]), sites, us, boltz, i);
    }
    if IsSpins(old(config[..])) {
      SweepOnSpins(old(config[..]), sites, us, boltz, n);
    }
  }

  /** The initial `config = 2 * np.random.randint(2, size=(N, 1)) - 1`,
      from the drawn bits: a spin chain with +1 exactly where the bit is 1. */
  function InitialChain(bits: seq<int>): (s: seq<int>)
    requires forall i :: 0 <= i < |bits| ==> bits[i] == 0 || bits[i] == 1
    ensures |s| == |bits| && IsSpins(s)
    ensures forall i :: 0 <= i < |bits| ==> (s[i] == 1 <==> bits[i] == 1)
  {
    seq(|bits|, i requires 0 <= i < |bits| => 2 * bits[i] - 1)
  }

  /** Whether every sweep draws `n` sites on a chain of length `n`. */
  predicate AllSitesIn(sites: seq<seq<int>>, n: int) {
    forall k :: 0 <= k < |sites| ==> |sites[k]| == n && SitesIn(sites[k], n)
  }

  lemma MulStep(k: int, m: int, n: int)
    requires 0 <= k <= m && n >= 0
    ensures (k - 1) * n + n <= m * n
  {
    assert (k - 1) * n + n == k * n;
  }

  /** The state after the first `k` calls `mcmove(config, N, 1.0/temp)` of the
      driver loop: each sweep reads its sites from `sites` and continues the
      single stream of uniform draws `us` where the previous sweep stopped. */
  function Runs(s: seq<int>, sites: seq<seq<int>>, us: seq<real>, boltz: int -> real, k: nat): (r: Chain)
    requires k <= |sites| && AllSitesIn(sites, |s|)
    requires |sites| * |s| <= |us|
    ensures |r.config| == |s| && r.drawn <= k * |s|
    decreases k
  {
    if k == 0 then Chain(s, 0)
    else
      var p := Runs(s, sites, us, boltz, k - 1);
      MulStep(k, |sites|, |s|);
      var q := Sweep(p.config, sites[k - 1], us[p.drawn..], boltz, |s|);
      Chain(q.config, p.drawn + q.drawn)
  }

  /** Started from a spin chain, the driver loop keeps a spin chain and
      consumes exactly `N` uniform draws per sweep. */
  lemma {:induction false} RunsOnSpins(s: seq<int>, sites: seq<seq<int>>, us: seq<real>, boltz: int -> real, k: nat)
    requires k <= |sites| && AllSitesIn(sites, |s|) && |sites| * |s| <= |us|
    requires IsSpins(s)
    ensures IsSpins(Runs(s, sites, us, boltz, k).config)
    ensures Runs(s, sites, us, boltz, k).drawn == k * |s|
  {
    if k > 0 {
      RunsOnSpins(s, sites, us, boltz, k - 1);
      var p := Runs(s, sites, us, boltz, k - 1);
      MulStep(k, |sites|, |s|);
      SweepOnSpins(p.config, sites[k - 1], us[p.drawn..], boltz, |s|);
      assert (k - 1) * |s| + |s| == k * |s|;
    }
  }

  /** The driver's `for i in range(msrmnt)` loop calling `mcmove`: `msrmnt` sweeps of the chain in place.
      Returns how many uniform draws were consumed in total. */
  method Run(config: array<int>, msrmnt: nat, sites: seq<seq<int>>, us: seq<real>, boltz: int -> real)
    returns (drawn: nat)
    requires |sites| == msrmnt && AllSitesIn(sites, config.Length)
    requires msrmnt * config.Length <= |us|
    modifies config
    ensures Chain(config[..], drawn) == Runs(old(config[..]), sites, us, boltz, msrmnt)
    ensures IsSpins(old(config[..])) ==> IsSpins(config[..]) && drawn == msrmnt * config.Length
  {
    drawn := 0;
    for t := 0 to msrmnt
      invariant Chain(config[..], drawn) == Runs(old(config[..]), sites, us, boltz, t)
    {
      MulStep(t + 1, msrmnt, config.Length);
      var used := McMove(config, config.Length, sites[t], us[drawn..], boltz);
      drawn := drawn + used;
    }
    if IsSpins(old(config[..])) {
      RunsOnSpins(old(config[..]), sites, us, boltz, msrmnt);
    }
  }

  /** The configuration with every spin negated. */
  function Negated(s: seq<int>): (r: seq<int>)
    ensures |r| == |s|
    ensures forall i :: 0 <= i < |s| ==> r[i] == -s[i]
  {
    seq(|s|, i requires 0 <= i < |s| => -s[i])
  }

  /** The contribution `-nb*S` of site `i` to `calcEnergy`. */
  function EnergyTerm(s: seq<int>, i: int): int
    requires 0 <= i < |s|
  {
    -NeighborSum(s, i) * s[i]
  }

  /** The accumulated `energy` after visiting sites `0 .. k-1`. */
  function EnergySum(s: seq<int>, k: nat): int
    requires k <= |s|
  {
    if k == 0 then 0 else EnergySum(s, k - 1) + EnergyTerm(s, k - 1)
  }

  /** The energy of a configuration: the accumulated sum divided by 4. */
  function Energy(s: seq<int>): real {
    EnergySum(s, |s|) as real / 4.0
  }

  /** Each term of a spin chain is one of -4, -2 or 0. */
  lemma EnergyTermRange(s: seq<int>, i: int)
    requires IsSpins(s) && 0 <= i < |s|
    ensures -4 <= EnergyTerm(s, i) <= 0
  {
    var l, c, r := s[Left(|s|, i)], s[i], s[Right(|s|, i)];
    if c == 1 {
      assert EnergyTerm(s, i) == -(r + 2 + l);
    } else {
      assert EnergyTerm(s, i) == r - 2 + l;
    }
  }

  /** The accumulated energy of a spin chain lies in [-4k, 0]. */
  lemma {:induction false} EnergySumRange(s: seq<int>, k: nat)
    requires IsSpins(s) && k <= |s|
    ensures -4 * k <= EnergySum(s, k) <= 0
  {
    if k > 0 {
      EnergySumRange(s, k - 1);
      EnergyTermRange(s, k - 1);
    }
  }

  /** Negating every spin leaves each term of the energy unchanged. */
  lemma EnergyTermNegated(s: seq<int>, i: int)
    requires 0 <= i < |s|
    ensures EnergyTerm(Negated(s), i) == EnergyTerm(s, i)
  {
    var t := Negated(s);
    assert NeighborSum(t, i) == -NeighborSum(s, i);
  }

  /** The energy is symmetric under global spin reversal. */
  lemma {:induction false} EnergySumNegated(s: seq<int>, k: nat)
    requires k <= |s|
    ensures EnergySum(Negated(s), k) == EnergySum(s, k)
  {
    if k > 0 {
      EnergySumNegated(s, k - 1);
      EnergyTermNegated(s, k - 1);
    }
  }

  /** `calcEnergy(config)`: the loop accumulating `-nb*S` over all sites,
      divided by 4. On a spin chain the result lies in [-N, 0]. */
  method CalcEnergy(config: array<int>) returns (e: real)
    ensures e == Energy(config[..])
    ensures IsSpins(config[..]) ==> -(config.Length as real) <= e <= 0.0
  {
    var n := config.Length;
    var energy := 0;
    for i := 0 to n
      invariant energy == EnergySum(config[..], i)
    {
      var S := config[i];
      var nb := config[Right(n, i)] + 2 * config[i] + config[Left(n, i)];
      energy := energy + -nb * S;
    }
    e := energy as real / 4.0;
    if IsSpins(config[..]) {
      EnergySumRange(config[..], n);
    }
  }

  /** Global spin reversal leaves the energy of a configuration unchanged. */
  lemma EnergyNegated(s: seq<int>)
    ensures Energy(Negated(s)) == Energy(s)
  {
    EnergySumNegated(s, |s|);
  }

  /** `calcMag(config)`: the sum of the spins, which for a spin chain lies in
      [-N, N] and has the parity of N. */
  function CalcMag(s: seq<int>): (m: int)
    ensures IsSpins(s) ==> -|s| <= m <= |s| && (m + |s|) % 2 == 0
  {
    if s == [] then 0 else CalcMag(s[..|s| - 1]) + s[|s| - 1]
  }

  /** Global spin reversal negates the magnetisation. */
  lemma {:induction false} MagNegated(s: seq<int>)
    ensures CalcMag(Negated(s)) == -CalcMag(s)
  {
    if s != [] {
      assert Negated(s)[..|s| - 1] == Negated(s[..|s| - 1]);
      MagNegated(s[..|s| - 1]);
    }
  }
}
