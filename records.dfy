/** The player table the dashboard loads once and then only reads.
    Only the columns the analytics core touches are kept. */
module Records {

  datatype Option<T> = None | Some(value: T)

  /** One row of the dataset. Dates are day numbers counted from
      1970-01-01 (day 0); a missing (empty) date is `None`. */
  datatype Player = Player(
    playerId: int,
    location: string,
    device: string,
    genre: string,
    difficulty: string,
    engagement: string,
    daysSinceSignup: int,
    isActive: bool,
    hasPurchased: bool,
    guildMember: bool,
    spentUsd: real,
    achievementsUnlocked: int,
    signupDate: Option<int>,
    lastActiveDate: Option<int>)

  /** The 0/1 value a boolean column holds in the table. */
  function Indicator(b: bool): (n: nat)
    ensures n <= 1
    ensures n == 1 <==> b
  {
    if b then 1 else 0
  }

  /** Sum of a column of numbers. */
  function SumReal(xs: seq<real>): real
  {
    if xs == [] then 0.0 else SumReal(xs[..|xs| - 1]) + xs[|xs| - 1]
  }

  /** Sum of a column of integers. */
  function SumInt(xs: seq<int>): int
  {
    if xs == [] then 0 else SumInt(xs[..|xs| - 1]) + xs[|xs| - 1]
  }

  /** `part` as a percentage of `whole`. */
  function Percent(part: real, whole: real): (p: real)
    requires whole > 0.0
    ensures 0.0 <= part <= whole ==> 0.0 <= p <= 100.0
    ensures p * whole == 100.0 * part
    ensures p == 0.0 <==> part == 0.0
  {
    var q := part / whole;
    assert q * whole == part;
    assert q == 0.0 <==> part == 0.0;
    assert 0.0 <= part ==> 0.0 <= q;
    assert part <= whole ==> q <= 1.0;
    100.0 * q
  }

  /** The mean of `count` values adding up to `total`. */
  function MeanOf(total: real, count: nat): (m: real)
    requires count > 0
    ensures m * (count as real) == total
    ensures total >= 0.0 ==> m >= 0.0
    ensures total == 0.0 ==> m == 0.0
  {
    total / (count as real)
  }

  /** Spreading a total over `n` values is the same as spreading it over the `p`
      values that carry it, scaled by the share `p` has among `n`. */
  lemma MeanThroughShare(total: real, p: nat, n: nat)
    requires 0 < p <= n
    ensures MeanOf(total, n) == Percent(p as real, n as real) / 100.0 * MeanOf(total, p)
  {
    var c, a, u := Percent(p as real, n as real), MeanOf(total, p), MeanOf(total, n);
    var x := c / 100.0;
    assert x * (n as real) == p as real;
    assert (x * a) * (n as real) == (x * (n as real)) * a;
    assert (x * a) * (n as real) == u * (n as real);
  }
}
