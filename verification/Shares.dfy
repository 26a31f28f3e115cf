/** The enclave's check of a share list, with its 32-bit running total. */
module Shares {
  import opened ByteStrings
  import opened PolicyTypes

  const UINT32: nat := 0x1_0000_0000

  datatype ShareCheck = Valid | NoShares | ZeroRecipient(total: nat) | WrongTotal(total: nat)

  /** Index of the first all-zero recipient from i on, or the length. */
  function FirstZero(shares: seq<Share>, i: nat := 0): (k: nat)
    requires i <= |shares|
    ensures i <= k <= |shares|
    ensures forall j | i <= j < k :: shares[j].recipient != ZERO_ADDRESS
    ensures k < |shares| ==> shares[k].recipient == ZERO_ADDRESS
    decreases |shares| - i
  {
    if i == |shares| || shares[i].recipient == ZERO_ADDRESS then i else FirstZero(shares, i + 1)
  }

  predicate NoZeroRecipient(shares: seq<Share>) {
    forall i | 0 <= i < |shares| :: shares[i].recipient != ZERO_ADDRESS
  }

  /** The verdict: an error carries the running total, reduced modulo 2^32, at the point it was raised. */
  function CheckShares(shares: seq<Share>): ShareCheck {
    var k := FirstZero(shares);
    var total := SumBps(shares[..k]) % UINT32;
    if shares == [] then NoShares
    else if k < |shares| then ZeroRecipient(total)
    else if total != TOTAL_BPS then WrongTotal(total)
    else Valid
  }

  method ValidateShares(shares: seq<Share>) returns (r: ShareCheck)
    ensures r == CheckShares(shares)
  {
    if |shares| == 0 {
      return NoShares;
    }
    var total := 0;
    for i := 0 to |shares|
      invariant total == SumBps(shares[..i]) % UINT32
      invariant i <= FirstZero(shares)
    {
      if shares[i].recipient == ZERO_ADDRESS {
        return ZeroRecipient(total);
      }
      assert shares[..i + 1][..i] == shares[..i];
      total := (total + shares[i].shareBps) % UINT32;
    }
    r := if total != TOTAL_BPS then WrongTotal(total) else Valid;
  }

  /** Recipient k is the first that is zero, and the shares before it sum to the total, modulo 2^32. */
  ghost predicate FirstZeroAt(shares: seq<Share>, k: nat, total: nat) {
    && k < |shares| && shares[k].recipient == ZERO_ADDRESS
    && (forall j | 0 <= j < k :: shares[j].recipient != ZERO_ADDRESS)
    && total == SumBps(shares[..k]) % 0x1_0000_0000
  }

  lemma FirstZeroIsThere(shares: seq<Share>, k: nat, total: nat)
    ensures FirstZeroAt(shares, k, total) <==>
              k == FirstZero(shares) && k < |shares| && total == SumBps(shares[..k]) % 0x1_0000_0000
  {
  }

  lemma VerdictOf(shares: seq<Share>, k: nat, total: nat)
    requires k == FirstZero(shares) && total == SumBps(shares[..k]) % 0x1_0000_0000
    ensures CheckShares(shares) == if |shares| == 0 then NoShares
                                   else if k < |shares| then ZeroRecipient(total)
                                   else if total != 10_000 then WrongTotal(total)
                                   else Valid
  {
  }

  /** A refusal for a zero recipient names the first one's total. */
  lemma ZeroExactly(shares: seq<Share>, total: nat)
    ensures CheckShares(shares) == ZeroRecipient(total) <==> exists k: nat :: FirstZeroAt(shares, k, total)
  {
    var k := FirstZero(shares);
    VerdictOf(shares, k, SumBps(shares[..k]) % 0x1_0000_0000);
    FirstZeroIsThere(shares, k, total);
    if i: nat :| FirstZeroAt(shares, i, total) {
      FirstZeroIsThere(shares, i, total);
    }
  }

  /** The other verdicts and exactly when each is given; the total is that of the wrapping 32-bit sum. */
  lemma CheckExactly(shares: seq<Share>, total: nat)
    ensures CheckShares(shares) == NoShares <==> |shares| == 0
    ensures CheckShares(shares) == WrongTotal(total) <==>
              && |shares| > 0 && (forall j | 0 <= j < |shares| :: shares[j].recipient != ZERO_ADDRESS)
              && total == SumBps(shares) % 0x1_0000_0000 && total != 10_000
    ensures CheckShares(shares) == Valid <==>
              && |shares| > 0 && (forall j | 0 <= j < |shares| :: shares[j].recipient != ZERO_ADDRESS)
              && SumBps(shares) % 0x1_0000_0000 == 10_000
  {
    var k := FirstZero(shares);
    VerdictOf(shares, k, SumBps(shares[..k]) % 0x1_0000_0000);
    NoneIsZero(shares);
    assert shares[..|shares|] == shares;
  }

  lemma {:induction false} SumBound(shares: seq<Share>)
    ensures SumBps(shares) <= 0xFFFF * |shares|
  {
    if shares != [] {
      SumBound(shares[..|shares| - 1]);
    }
  }

  lemma NoneIsZero(shares: seq<Share>)
    ensures FirstZero(shares) == |shares| <==> NoZeroRecipient(shares)
  {
  }

  lemma FitsIn32Bits(shares: seq<Share>)
    requires |shares| <= 65_537
    ensures SumBps(shares) < UINT32
  {
    SumBound(shares);
  }

  lemma TotalIsExact(shares: seq<Share>)
    requires SumBps(shares) < UINT32
    ensures CheckShares(shares).Valid? <==>
            shares != [] && SumBps(shares) == TOTAL_BPS && FirstZero(shares) == |shares|
  {
    assert shares[..|shares|] == shares;
  }

  /** Up to 65537 shares the 32-bit total never wraps, so acceptance means exactly 10000 basis points. */
  lemma ValidMeansTenThousand(shares: seq<Share>)
    requires |shares| <= 65_537
    ensures CheckShares(shares).Valid? <==>
            shares != [] && SumBps(shares) == TOTAL_BPS && NoZeroRecipient(shares)
  {
    FitsIn32Bits(shares);
    TotalIsExact(shares);
    NoneIsZero(shares);
  }

  /** The check accepts exactly the lists it is meant to: not empty, no zero recipient, 10000 basis points. */
  ghost predicate JudgedExactly(shares: seq<Share>) {
    CheckShares(shares).Valid? <==> shares != [] && SumBps(shares) == TOTAL_BPS && NoZeroRecipient(shares)
  }

  /** One list is misjudged exactly when it is accepted although its true total does not fit 32 bits. */
  lemma MisjudgedExactlyOnWrap(shares: seq<Share>)
    ensures JudgedExactly(shares) <==> !(CheckShares(shares).Valid? && SumBps(shares) >= UINT32)
  {
    NoneIsZero(shares);
    assert shares[..|shares|] == shares;
    if SumBps(shares) < UINT32 {
      TotalIsExact(shares);
    }
  }

  lemma {:induction false} SumOfEqual(n: nat, s: Share)
    ensures SumBps(seq(n, _ => s)) == n * s.shareBps
  {
    if n > 0 {
      assert seq(n, _ => s)[..n - 1] == seq(n - 1, _ => s);
      SumOfEqual(n - 1, s);
    }
  }

  lemma {:induction false} SumOfAppend(a: seq<Share>, b: seq<Share>)
    ensures SumBps(a + b) == SumBps(a) + SumBps(b)
  {
    if b == [] {
      assert a + b == a;
    } else {
      var n := |b| - 1;
      SumOfAppend(a, b[..n]);
      assert (a + b)[..|a + b| - 1] == a + b[..n];
    }
  }

  /** From 65538 shares on the total can wrap: lists of every such length are accepted at 2^32 + 10000. */
  lemma LongListsCanWrap(a: Address, n: nat) returns (shares: seq<Share>)
    requires a != ZERO_ADDRESS && n >= 65_538
    ensures |shares| == n && SumBps(shares) == UINT32 + TOTAL_BPS && CheckShares(shares).Valid?
  {
    var full, last := seq(65_537, _ => Share(a, 0xFFFF)), [Share(a, 10_001)];
    var padding := seq(n - 65_538, _ => Share(a, 0));
    shares := full + last + padding;
    SumOfEqual(65_537, Share(a, 0xFFFF));
    SumOfEqual(n - 65_538, Share(a, 0));
    assert last[..0] == [];
    SumOfAppend(full, last);
    SumOfAppend(full + last, padding);
    NoneIsZero(shares);
    assert shares[..|shares|] == shares;
  }

  /** The 32-bit total judges every list of a length exactly when the length is at most 65537. */
  lemma ExactUpTo65537(n: nat)
    ensures (forall shares: seq<Share> | |shares| == n :: JudgedExactly(shares)) <==> n <= 65_537
  {
    if n <= 65_537 {
      forall shares: seq<Share> | |shares| == n
        ensures JudgedExactly(shares)
      {
        ValidMeansTenThousand(shares);
      }
    } else {
      var one: Address := seq(20, _ => 1);
      assert one[0] != ZERO_ADDRESS[0];
      var shares := LongListsCanWrap(one, n);
      assert !JudgedExactly(shares);
    }
  }
}
