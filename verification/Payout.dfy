/** Shares into amounts against a concrete balance: the last recipient takes the remainder. */
module Payout {
  import opened PolicyTypes

  datatype Amount = Amount(recipient: string, amount: int)

  /** Division of big integers truncates towards zero. */
  function TruncatedQuotient(a: int, b: int): int
    requires b > 0
  {
    if a >= 0 then a / b else -((-a) / b)
  }

  function Proportion(balance: int, bps: int): int {
    TruncatedQuotient(balance * bps, 10_000)
  }

  function Sum(xs: seq<int>): int {
    if xs == [] then 0 else Sum(xs[..|xs| - 1]) + xs[|xs| - 1]
  }

  function Bps(rs: seq<Recipient>): seq<int> {
    seq(|rs|, i requires 0 <= i < |rs| => rs[i].shareBps)
  }

  function Proportions(rs: seq<Recipient>, balance: int): seq<int> {
    seq(|rs|, i requires 0 <= i < |rs| => Proportion(balance, rs[i].shareBps))
  }

  /** The amounts paid. */
  function Amounts(rs: seq<Recipient>, balance: int): seq<int> {
    if rs == [] then []
    else
      var others := Proportions(rs[..|rs| - 1], balance);
      others + [balance - Sum(others)]
  }

  method ResolveDistributions(rs: seq<Recipient>, balance: int) returns (out: seq<Amount>)
    ensures |out| == |rs| && forall i | 0 <= i < |rs| :: out[i] == Amount(rs[i].address, Amounts(rs, balance)[i])
  {
    out := [];
    var paid := 0;
    for i := 0 to |rs|
      invariant |out| == i
      invariant i < |rs| ==> paid == Sum(Proportions(rs[..i], balance))
      invariant forall k | 0 <= k < i :: out[k] == Amount(rs[k].address, Amounts(rs, balance)[k])
    {
      var isLast := i == |rs| - 1;
      var amount := if isLast then balance - paid else TruncatedQuotient(balance * rs[i].shareBps, 10_000);
      paid := paid + amount;
      out := out + [Amount(rs[i].address, amount)];
      if !isLast {
        assert Proportions(rs[..i + 1], balance)[..i] == Proportions(rs[..i], balance);
      }
    }
  }

  /** What the schema guarantees of a distribution. */
  ghost predicate Complete(rs: seq<Recipient>) {
    rs != [] && (forall r | r in rs :: r.shareBps >= 1) && Sum(Bps(rs)) == 10_000
  }

  /** Nothing is stranded and nothing is invented, whatever the balance. */
  lemma PaysWholeBalance(rs: seq<Recipient>, balance: int)
    requires rs != []
    ensures Sum(Amounts(rs, balance)) == balance
  {
    var others := Proportions(rs[..|rs| - 1], balance);
    assert Amounts(rs, balance)[..|rs| - 1] == others;
  }

  function Residues(rs: seq<Recipient>, balance: nat): seq<int> {
    seq(|rs|, i requires 0 <= i < |rs| => balance * rs[i].shareBps % 10_000)
  }

  lemma {:induction false} ResidueBalance(rs: seq<Recipient>, balance: nat)
    requires forall r | r in rs :: r.shareBps >= 1
    ensures 10_000 * Sum(Proportions(rs, balance)) + Sum(Residues(rs, balance)) == balance * Sum(Bps(rs))
    ensures 0 <= Sum(Residues(rs, balance)) <= 9_999 * |rs|
  {
    if rs != [] {
      var n := |rs| - 1;
      var init, s := rs[..n], rs[n].shareBps;
      ResidueBalance(init, balance);
      assert Proportions(rs, balance)[..n] == Proportions(init, balance);
      assert Residues(rs, balance)[..n] == Residues(init, balance);
      assert Bps(rs)[..n] == Bps(init);
      Distribute(balance, Sum(Bps(init)), s);
      assert balance * s == 10_000 * (balance * s / 10_000) + balance * s % 10_000;
      ProductNonNegative(balance, s);
    }
  }

  lemma Distribute(a: int, x: int, y: int)
    ensures a * (x + y) == a * x + a * y
  {
  }

  lemma ProductNonNegative(a: nat, b: nat)
    ensures a * b >= 0
  {
  }

  /** What the last recipient gets beyond its own proportion. */
  function Dust(rs: seq<Recipient>, balance: int): int
    requires rs != []
  {
    Amounts(rs, balance)[|rs| - 1] - Proportion(balance, rs[|rs| - 1].shareBps)
  }

  lemma DustIsRemainder(rs: seq<Recipient>, balance: int)
    requires rs != []
    ensures Dust(rs, balance) == balance - Sum(Proportions(rs, balance))
  {
    var n := |rs| - 1;
    assert Proportions(rs, balance)[..n] == Proportions(rs[..n], balance);
  }

  /** Every amount is non-negative, every one but the last is its floor, and the dust is below the number of recipients. */
  lemma DustBound(rs: seq<Recipient>, balance: nat)
    requires Complete(rs)
    ensures forall i | 0 <= i < |rs| :: Amounts(rs, balance)[i] >= 0
    ensures forall i | 0 <= i < |rs| - 1 :: Amounts(rs, balance)[i] == balance * rs[i].shareBps / 10_000
    ensures 0 <= Dust(rs, balance) <= |rs| - 1
  {
    ResidueBalance(rs, balance);
    DustIsRemainder(rs, balance);
    forall i | 0 <= i < |rs| ensures Proportion(balance, rs[i].shareBps) == balance * rs[i].shareBps / 10_000 >= 0 {
      assert rs[i] in rs;
      ProductNonNegative(balance, rs[i].shareBps);
    }
    var residue := Sum(Residues(rs, balance));
    assert 10_000 * Dust(rs, balance) == residue;
  }

  lemma {:induction false} ProportionsOf9999(rs: seq<Recipient>)
    requires forall r | r in rs :: 1 <= r.shareBps <= 10_000
    ensures Sum(Proportions(rs, 9_999)) == Sum(Bps(rs)) - |rs|
  {
    if rs != [] {
      var n := |rs| - 1;
      ProportionsOf9999(rs[..n]);
      assert Proportions(rs, 9_999)[..n] == Proportions(rs[..n], 9_999);
      assert Bps(rs)[..n] == Bps(rs[..n]);
      assert rs[n] in rs;
      assert 9_999 * rs[n].shareBps == 10_000 * (rs[n].shareBps - 1) + (10_000 - rs[n].shareBps);
    }
  }

  lemma {:induction false} ShareAtMostTotal(rs: seq<Recipient>, k: nat)
    requires k < |rs| && forall r | r in rs :: r.shareBps >= 1
    ensures rs[k].shareBps <= Sum(Bps(rs)) && |rs| <= Sum(Bps(rs))
  {
    var n := |rs| - 1;
    assert Bps(rs)[..n] == Bps(rs[..n]);
    assert rs[n] in rs;
    if n > 0 {
      ShareAtMostTotal(rs[..n], if k < n then k else 0);
    }
  }

  /** The bound is sharp for every complete distribution: a balance of 9999 leaves exactly n - 1 as dust. */
  lemma DustBoundAttained(rs: seq<Recipient>)
    requires Complete(rs)
    ensures Dust(rs, 9_999) == |rs| - 1
  {
    forall r | r in rs ensures 1 <= r.shareBps <= 10_000 {
      var k :| 0 <= k < |rs| && rs[k] == r;
      ShareAtMostTotal(rs, k);
    }
    ProportionsOf9999(rs);
    DustIsRemainder(rs, 9_999);
  }

  lemma ProportionOfSum(b1: nat, b2: nat, s: nat)
    ensures 0 <= Proportion(b1 + b2, s) - Proportion(b1, s) - Proportion(b2, s) <= 1
  {
    Distribute(s, b1, b2);
    var p1, p2 := b1 * s, b2 * s;
    ProductNonNegative(b1, s);
    ProductNonNegative(b2, s);
    assert (b1 + b2) * s == p1 + p2;
    QuotientOfSum(p1, p2);
  }

  lemma QuotientOfSum(p: nat, q: nat)
    ensures 0 <= (p + q) / 10_000 - p / 10_000 - q / 10_000 <= 1
  {
  }

  lemma {:induction false} ProportionsOfSum(rs: seq<Recipient>, b1: nat, b2: nat)
    requires forall r | r in rs :: r.shareBps >= 1
    ensures 0 <= Sum(Proportions(rs, b1 + b2)) - Sum(Proportions(rs, b1)) - Sum(Proportions(rs, b2)) <= |rs|
  {
    if rs != [] {
      var n := |rs| - 1;
      ProportionsOfSum(rs[..n], b1, b2);
      assert rs[n] in rs;
      ProportionOfSum(b1, b2, rs[n].shareBps);
      assert Proportions(rs, b1 + b2)[..n] == Proportions(rs[..n], b1 + b2);
      assert Proportions(rs, b1)[..n] == Proportions(rs[..n], b1);
      assert Proportions(rs, b2)[..n] == Proportions(rs[..n], b2);
    }
  }

  /**
   Paying two balances at once instead of one after the other gives every recipient but the last either the
   same or one unit more, and the last at most n - 1 less and never more.
   */
  lemma PayingTogether(rs: seq<Recipient>, b1: nat, b2: nat)
    requires Complete(rs)
    ensures forall i | 0 <= i < |rs| - 1 ::
              0 <= Amounts(rs, b1 + b2)[i] - Amounts(rs, b1)[i] - Amounts(rs, b2)[i] <= 1
    ensures var last := |rs| - 1;
            0 <= Amounts(rs, b1)[last] + Amounts(rs, b2)[last] - Amounts(rs, b1 + b2)[last] <= |rs| - 1
  {
    var others := rs[..|rs| - 1];
    forall r | r in others ensures r.shareBps >= 1 {
      assert r in rs;
    }
    ProportionsOfSum(others, b1, b2);
    forall i | 0 <= i < |rs| - 1
      ensures 0 <= Amounts(rs, b1 + b2)[i] - Amounts(rs, b1)[i] - Amounts(rs, b2)[i] <= 1
    {
      assert others[i] in others;
      ProportionOfSum(b1, b2, rs[i].shareBps);
    }
  }

  /** The quotient towards zero: as close to the dividend as a multiple gets without passing it. */
  lemma TruncatesTowardsZero(a: int, b: int)
    requires b > 0
    ensures a >= 0 ==> TruncatedQuotient(a, b) * b <= a < TruncatedQuotient(a, b) * b + b
    ensures a <= 0 ==> TruncatedQuotient(a, b) * b - b < a <= TruncatedQuotient(a, b) * b
  {
    var n := if a >= 0 then a else -a;
    var q := n / b;
    assert n == q * b + n % b;
    assert (-q) * b == -(q * b);
  }
}
