/** The policy intermediate representation and the checks its schema makes. */
module Schema {
  import opened PolicyTypes
  import opened Text
  import opened Payout

  datatype Trigger =
    | ManualHeartbeat(intervalSeconds: int, demoMode: bool)
    | ChainProofOfLife(intervalSeconds: int, sourceId: string, destinationAddress: string, minimumAmount: string)
    | Timestamp(executeAfter: int)

  datatype Condition = PriceAbove(feedId: string, minimumUsd: real)

  datatype Action = SplitTransfer(recipients: seq<Recipient>)

  datatype PolicyIR = PolicyIR(version: int, name: string, asset: string, trigger: Trigger,
                               conditions: seq<Condition>, actions: seq<Action>)

  /** A string's length counts UTF-16 units. */
  function Units(s: string): nat {
    if s == "" then 0 else Units(s[1..]) + if s[0] as int < 0x1_0000 then 1 else 2
  }

  predicate IsHexId(t: string, digits: nat) {
    |t| == digits + 2 && t[..2] == "0x" && AllHex(t[2..])
  }

  /** `^0x[0-9a-fA-F]{40}$` */
  predicate IsAddressText(t: string) {
    IsHexId(t, 40)
  }

  /** `^[1-9][0-9]*$` */
  predicate IsAmountText(t: string) {
    t != "" && AllDigits(t) && t[0] != '0'
  }

  predicate TriggerOk(t: Trigger) {
    match t
    case ManualHeartbeat(interval, _) => interval > 0
    case ChainProofOfLife(interval, _, _, amount) => interval > 0 && IsAmountText(amount)
    case Timestamp(after) => after > 0
  }

  predicate RecipientOk(r: Recipient) {
    IsAddressText(r.address) && 1 <= r.shareBps <= 10_000 && (r.note.Some? ==> Units(r.note.value) <= 120)
  }

  predicate RecipientsOk(rs: seq<Recipient>) {
    forall i | 0 <= i < |rs| :: RecipientOk(rs[i])
  }

  /** The declarative half of the schema. */
  predicate ShapeOk(ir: PolicyIR) {
    && ir.version == 1
    && 1 <= Units(ir.name) <= 120
    && TriggerOk(ir.trigger)
    && (forall c | c in ir.conditions :: c.minimumUsd > 0.0)
    && ir.actions != []
    && (forall a | a in ir.actions :: a.recipients != [] && RecipientsOk(a.recipients))
  }

  /** The recipients of one action, checked one by one. */
  ghost predicate WellFormed(r: Recipient) {
    && |r.address| == 42 && r.address[0] == '0' && r.address[1] == 'x'
    && (forall i | 2 <= i < 42 :: r.address[i] in "0123456789abcdefABCDEF")
    && 0 < r.shareBps <= 10_000 && (r.note == None || Units(r.note.value) < 121)
  }

  lemma HexDigits(c: char)
    ensures IsHexDigit(c) <==> c in "0123456789abcdefABCDEF"
  {
    var digits := "0123456789abcdefABCDEF";
    if '0' <= c <= '9' {
      assert digits[c as int - 48] == c;
    } else if 'a' <= c <= 'f' {
      assert digits[c as int - 87] == c;
    } else if 'A' <= c <= 'F' {
      assert digits[c as int - 49] == c;
    }
  }

  lemma RecipientExactly(r: Recipient)
    ensures RecipientOk(r) <==> WellFormed(r)
  {
    var t := r.address;
    if |t| == 42 {
      assert t[..2] == [t[0], t[1]];
      assert t[2..] == t[2..42];
      forall i | 2 <= i < 42
        ensures t[2..][i - 2] == t[i] && (IsHexDigit(t[i]) <==> t[i] in "0123456789abcdefABCDEF")
      {
        HexDigits(t[i]);
      }
    }
  }

  /** What the declarative half admits, rule by rule. */
  lemma ShapeExactly(ir: PolicyIR)
    ensures ShapeOk(ir) <==>
              && ir.version == 1 && 0 < Units(ir.name) < 121
              && match ir.trigger {
                   case ManualHeartbeat(seconds, _) => seconds >= 1
                   case Timestamp(after) => after >= 1
                   case ChainProofOfLife(seconds, _, _, amount) =>
                     seconds >= 1 && amount != "" && AllDigits(amount) && amount[0] in "123456789"
                 }
              && (forall i | 0 <= i < |ir.conditions| :: ir.conditions[i].minimumUsd > 0.0)
              && |ir.actions| >= 1
              && forall i | 0 <= i < |ir.actions| ::
                   |ir.actions[i].recipients| >= 1 &&
                   forall j | 0 <= j < |ir.actions[i].recipients| :: WellFormed(ir.actions[i].recipients[j])
  {
    forall r: Recipient {
      RecipientExactly(r);
    }
    if ir.trigger.ChainProofOfLife? && IsAmountText(ir.trigger.minimumAmount) {
      var d := ir.trigger.minimumAmount[0];
      assert "123456789"[d as int - 49] == d;
    }
  }

  datatype Issue = WrongTotal(action: nat, total: int) | DuplicateRecipient(action: nat, recipient: nat)

  predicate Repeats(rs: seq<Recipient>, j: nat)
    requires j < |rs|
  {
    exists k | 0 <= k < j :: ToLower(rs[k].address) == ToLower(rs[j].address)
  }

  predicate RaisedBy(ir: PolicyIR, issue: Issue) {
    issue.action < |ir.actions| &&
    var rs := ir.actions[issue.action].recipients;
    match issue
    case WrongTotal(_, total) => total == Sum(Bps(rs)) && total != 10_000
    case DuplicateRecipient(_, j) => j < |rs| && Repeats(rs, j)
  }

  predicate DistinctRecipients(rs: seq<Recipient>) {
    forall j | 0 <= j < |rs| :: !Repeats(rs, j)
  }

  /** The rules that span a whole action. */
  predicate RulesOk(ir: PolicyIR) {
    forall a | a in ir.actions :: Sum(Bps(a.recipients)) == 10_000 && DistinctRecipients(a.recipients)
  }

  /** The order of the report: by action, its total first, then its recipients in turn. */
  predicate Before(x: Issue, y: Issue) {
    x.action < y.action
    || (x.action == y.action && y.DuplicateRecipient? && (x.WrongTotal? || x.recipient < y.recipient))
  }

  ghost predicate InOrder(issues: seq<Issue>) {
    forall p, q | 0 <= p < q < |issues| :: Before(issues[p], issues[q])
  }

  method Duplicates(i: nat, rs: seq<Recipient>) returns (issues: seq<Issue>)
    ensures forall issue :: issue in issues <==>
              issue.DuplicateRecipient? && issue.action == i && issue.recipient < |rs| && Repeats(rs, issue.recipient)
    ensures InOrder(issues)
  {
    issues := [];
    var seen := {};
    for j := 0 to |rs|
      invariant seen == set k | 0 <= k < j :: ToLower(rs[k].address)
      invariant forall issue :: issue in issues <==>
                  issue.DuplicateRecipient? && issue.action == i && issue.recipient < j && Repeats(rs, issue.recipient)
      invariant InOrder(issues)
    {
      var key := ToLower(rs[j].address);
      if key in seen {
        issues := issues + [DuplicateRecipient(i, j)];
      }
      assert key in seen <==> Repeats(rs, j);
      seen := seen + {key};
    }
  }

  method Total(rs: seq<Recipient>) returns (total: int)
    ensures total == Sum(Bps(rs))
  {
    total := 0;
    for j := 0 to |rs|
      invariant total == Sum(Bps(rs[..j]))
    {
      assert Bps(rs[..j + 1])[..j] == Bps(rs[..j]);
      total := total + rs[j].shareBps;
    }
    assert rs[..|rs|] == rs;
  }

  /** One action's issues, in order. */
  method CheckAction(i: nat, rs: seq<Recipient>) returns (issues: seq<Issue>)
    ensures forall issue :: issue in issues <==>
              (issue == WrongTotal(i, Sum(Bps(rs))) && Sum(Bps(rs)) != 10_000)
              || (issue.DuplicateRecipient? && issue.action == i && issue.recipient < |rs| && Repeats(rs, issue.recipient))
    ensures InOrder(issues)
  {
    issues := [];
    var total := Total(rs);
    if total != 10_000 {
      issues := issues + [WrongTotal(i, total)];
    }
    var duplicates := Duplicates(i, rs);
    JoinsInOrder(issues, duplicates);
    issues := issues + duplicates;
  }

  lemma JoinsInOrder(a: seq<Issue>, b: seq<Issue>)
    requires InOrder(a) && InOrder(b) && forall x, y | x in a && y in b :: Before(x, y)
    ensures InOrder(a + b)
  {
  }

  /** The refinement reports every wrong total and every repeated recipient once, in order, and nothing else. */
  method SuperRefine(ir: PolicyIR) returns (issues: seq<Issue>)
    ensures forall issue :: issue in issues <==> RaisedBy(ir, issue)
    ensures InOrder(issues)
    ensures issues == [] <==> RulesOk(ir)
  {
    issues := [];
    for i := 0 to |ir.actions|
      invariant forall issue :: issue in issues <==> issue.action < i && RaisedBy(ir, issue)
      invariant InOrder(issues)
    {
      var more := CheckAction(i, ir.actions[i].recipients);
      JoinsInOrder(issues, more);
      issues := issues + more;
    }
    NoIssueMeansRules(ir, issues);
  }

  /** So the report is determined, and with it the issue the compiler quotes, which is the first. */
  lemma {:induction false} ReportIsDetermined(a: seq<Issue>, b: seq<Issue>)
    requires InOrder(a) && InOrder(b) && forall issue :: issue in a <==> issue in b
    ensures a == b
  {
    assert a != [] ==> a[0] in b;
    assert b != [] ==> b[0] in a;
    if a != [] {
      assert a == [a[0]] + a[1..] && b == [b[0]] + b[1..];
      assert a[0] == b[0];
      forall issue
        ensures issue in a[1..] <==> issue in b[1..]
      {
        assert issue in a[1..] ==> Before(a[0], issue) && issue in b;
        assert issue in b[1..] ==> Before(b[0], issue) && issue in a;
      }
      ReportIsDetermined(a[1..], b[1..]);
    }
  }

  lemma NoIssueMeansRules(ir: PolicyIR, issues: seq<Issue>)
    requires forall issue :: issue in issues <==> RaisedBy(ir, issue)
    ensures issues == [] <==> RulesOk(ir)
  {
    if issues == [] {
      forall a | a in ir.actions ensures Sum(Bps(a.recipients)) == 10_000 && DistinctRecipients(a.recipients) {
        var i :| 0 <= i < |ir.actions| && ir.actions[i] == a;
        assert !RaisedBy(ir, WrongTotal(i, Sum(Bps(a.recipients))));
        forall j | 0 <= j < |a.recipients| ensures !Repeats(a.recipients, j) {
          assert !RaisedBy(ir, DuplicateRecipient(i, j));
        }
      }
    } else {
      assert RaisedBy(ir, issues[0]);
      assert ir.actions[issues[0].action] in ir.actions;
    }
  }

  predicate SchemaAccepts(ir: PolicyIR) {
    ShapeOk(ir) && RulesOk(ir)
  }
}
