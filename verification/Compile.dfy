/**
 The compiler, the enclave's reading of what it emits, and their agreement: the payload of every accepted
 policy parses in the enclave to the shares the on-chain commitment was taken over.
 */
module Compile {
  import opened ByteStrings
  import opened PolicyTypes
  import opened Text
  import opened Json
  import opened Canonical
  import opened Payout
  import opened Schema
  import opened Shares
  import Commitment

  /** Library facts the compiler consults: the asset registry, and the ABI encoder's address checksum rule. */
  datatype Context = Context(keccak: Hash, knownAssets: set<string>, checksumOk: string -> bool)

  datatype PublicArgs = PublicArgs(assetSymbol: string, commitment: Bytes32, trigger: Trigger, conditions: seq<Condition>)

  datatype Compiled = Compiled(ir: PolicyIR, publicArgs: PublicArgs, name: string, recipients: seq<Recipient>,
                               enclaveConfig: Json, plaintext: string)

  // --- the compiler -------------------------------------------------------------------------------------

  function AddressOf(t: string): Address
    requires IsAddressText(t)
  {
    FromHex(t[2..])
  }

  function WordOf(t: string): Bytes32
    requires IsHexId(t, 64)
  {
    FromHex(t[2..])
  }

  /** The distribution set the commitment is taken over: shares, not amounts. */
  function ShareCommitmentSet(rs: seq<Recipient>): seq<Commitment.Distribution>
    requires RecipientsOk(rs)
  {
    seq(|rs|, i requires 0 <= i < |rs| => Commitment.Distribution(AddressOf(rs[i].address), rs[i].shareBps))
  }

  function ShareJson(r: Recipient): Json
    requires r.shareBps >= 0
  {
    Obj([Field("recipient", Str(r.address)), Field("shareBps", Num(Decimal(r.shareBps)))])
  }

  /** The sealed half: salt and shares, without the name or any recipient's note. */
  function EnclaveConfig(rs: seq<Recipient>, salt: string): Json
    requires RecipientsOk(rs)
  {
    Obj([Field("salt", Str(salt)),
         Field("shares", Arr(seq(|rs|, i requires 0 <= i < |rs| => ShareJson(rs[i]))))])
  }

  lemma SchemaChecksRecipients(ir: PolicyIR)
    requires ShapeOk(ir)
    ensures RecipientsOk(ir.actions[0].recipients)
  {
    assert ir.actions[0] in ir.actions;
  }

  /** None where the code throws. The first action is the distribution; the schema has no other kind. */
  function CompilePolicy(ctx: Context, ir: PolicyIR, salt: string): Option<Compiled> {
    if !SchemaAccepts(ir) || ir.asset !in ctx.knownAssets then None
    else
      var rs := ir.actions[0].recipients;
      SchemaChecksRecipients(ir);
      if !IsHexId(salt, 64) || exists i | 0 <= i < |rs| :: !ctx.checksumOk(rs[i].address) then None
      else
        var commitment := Commitment.BrowserCommitment(ctx.keccak, ShareCommitmentSet(rs), WordOf(salt));
        var config := EnclaveConfig(rs, salt);
        Some(Compiled(ir, PublicArgs(ir.asset, commitment, ir.trigger, ir.conditions), ir.name, rs, config,
                      Canonicalize(config)))
  }

  /** A policy compiles exactly when the schema takes it, its asset is known, and the encoder takes salt and addresses. */
  lemma CompilesExactly(ctx: Context, ir: PolicyIR, salt: string)
    ensures CompilePolicy(ctx, ir, salt).Some? <==>
              && ShapeOk(ir)
              && (forall i | 0 <= i < |ir.actions| ::
                    && Sum(Bps(ir.actions[i].recipients)) == 10_000
                    && forall j, k | 0 <= j < k < |ir.actions[i].recipients| ::
                         ToLower(ir.actions[i].recipients[j].address) != ToLower(ir.actions[i].recipients[k].address))
              && ir.asset in ctx.knownAssets
              && |salt| == 66 && salt[0] == '0' && salt[1] == 'x' && AllHex(salt[2..])
              && forall r | r in ir.actions[0].recipients :: ctx.checksumOk(r.address)
  {
    assert |salt| == 66 ==> salt[..2] == [salt[0], salt[1]];
    if ShapeOk(ir) {
      assert forall i | 0 <= i < |ir.actions| :: ir.actions[i] in ir.actions;
      DistinctPairwise(ir);
    }
  }

  lemma DistinctPairwise(ir: PolicyIR)
    ensures RulesOk(ir) <==>
              forall i | 0 <= i < |ir.actions| ::
                && Sum(Bps(ir.actions[i].recipients)) == 10_000
                && forall j, k | 0 <= j < k < |ir.actions[i].recipients| ::
                     ToLower(ir.actions[i].recipients[j].address) != ToLower(ir.actions[i].recipients[k].address)
  {
    forall i | 0 <= i < |ir.actions|
      ensures DistinctRecipients(ir.actions[i].recipients) <==>
                forall j, k | 0 <= j < k < |ir.actions[i].recipients| ::
                  ToLower(ir.actions[i].recipients[j].address) != ToLower(ir.actions[i].recipients[k].address)
    {
      var rs := ir.actions[i].recipients;
      assert forall j, k | 0 <= j < k < |rs| && ToLower(rs[j].address) == ToLower(rs[k].address) :: Repeats(rs, k);
    }
    assert forall i | 0 <= i < |ir.actions| :: ir.actions[i] in ir.actions;
  }

  /** Lengths in the schema count UTF-16 code units. */
  lemma {:induction false} UnitsAreUtf16(s: string)
    ensures Units(s) == |Utf16(s)|
  {
    if s != "" {
      UnitsAreUtf16(s[1..]);
    }
  }

  // --- the enclave's side: json.Unmarshal into PrivateConfig ----------------------------------------------

  /** A member by name; the last one wins. */
  function Member(fields: seq<Field>, key: string): Option<Json> {
    if fields == [] then None
    else if fields[|fields| - 1].key == key then Some(fields[|fields| - 1].value)
    else Member(fields[..|fields| - 1], key)
  }

  /** A fixed number of bytes as prefixed hex. Only an absent member leaves the zero value: null is not text. */
  function UnmarshalFixed(v: Option<Json>, size: nat): (r: Option<Bytes>)
    ensures r.Some? ==> |r.value| == size
  {
    if v.None? then Some(Zeros(size))
    else match v.value
         case Str(t) =>
           if |t| == 2 * size + 2 && t[0] == '0' && (t[1] == 'x' || t[1] == 'X') && AllHex(t[2..]) then
             Some(FromHex(t[2..]))
           else None
         case _ => None
  }

  function UnmarshalUint16(v: Option<Json>): Option<Uint16> {
    if v.None? || v.value.Null? then Some(0)
    else if v.value.Num? && AllDigits(v.value.numeral) && DecimalValue(v.value.numeral) < 0x1_0000 then
      Some(DecimalValue(v.value.numeral))
    else None
  }

  function UnmarshalShare(v: Json): Option<Share> {
    match v
    case Null => Some(Share(Zeros(20), 0))
    case Obj(fields) =>
      var recipient := UnmarshalFixed(Member(fields, "recipient"), 20);
      var bps := UnmarshalUint16(Member(fields, "shareBps"));
      if recipient.Some? && bps.Some? then Some(Share(recipient.value, bps.value)) else None
    case _ => None
  }

  function UnmarshalShares(items: seq<Json>): Option<seq<Share>> {
    if items == [] then Some([])
    else
      var first, rest := UnmarshalShare(items[0]), UnmarshalShares(items[1..]);
      if first.Some? && rest.Some? then Some([first.value] + rest.value) else None
  }

  function UnmarshalFields(fields: seq<Field>): Option<PrivateConfig> {
    var salt := UnmarshalFixed(Member(fields, "salt"), 32);
    var shares :=
      match Member(fields, "shares")
      case Some(Arr(items)) => UnmarshalShares(items)
      case Some(Null) => Some([])
      case None => Some([])
      case Some(_) => None;
    if salt.Some? && shares.Some? then Some(PrivateConfig(shares.value, salt.value)) else None
  }

  function UnmarshalConfig(text: string): Option<PrivateConfig> {
    match Parse(text)
    case Some(Null) => Some(PrivateConfig([], Zeros(32)))
    case Some(Obj(fields)) => UnmarshalFields(fields)
    case _ => None
  }

  // --- agreement --------------------------------------------------------------------------------------------

  /** Of members with one name the last counts. */
  lemma {:induction false} MemberIsLast(fields: seq<Field>, key: string)
    ensures Member(fields, key).None? <==> forall i | 0 <= i < |fields| :: fields[i].key != key
    ensures Member(fields, key).Some? ==>
              exists i | 0 <= i < |fields| ::
                && fields[i] == Field(key, Member(fields, key).value)
                && forall j | i < j < |fields| :: fields[j].key != key
  {
    if fields != [] {
      var n := |fields| - 1;
      MemberIsLast(fields[..n], key);
      if fields[n].key == key {
        assert fields[n] == Field(key, Member(fields, key).value);
      }
    }
  }

  /** The reader of a fixed number of bytes, and that of a proportion. */
  lemma ReadsNumbersExactly(v: Option<Json>, size: nat, n: Uint16)
    ensures v.None? ==> UnmarshalFixed(v, size) == Some(seq(size, _ => 0)) && UnmarshalUint16(v) == Some(0)
    ensures v.Some? ==>
              (UnmarshalFixed(v, size).Some? <==>
                 && v.value.Str? && |v.value.s| == 2 * size + 2
                 && (v.value.s[..2] == "0x" || v.value.s[..2] == "0X") && AllHex(v.value.s[2..]))
    ensures v.Some? && UnmarshalFixed(v, size).Some? ==>
              "0x" + HexText(UnmarshalFixed(v, size).value) == "0x" + ToLower(v.value.s[2..])
    ensures v.Some? ==>
              (UnmarshalUint16(v) == Some(n) <==>
                 (v.value == Null && n == 0)
                 || (v.value.Num? && AllDigits(v.value.numeral) && DecimalValue(v.value.numeral) == n))
  {
    if v.Some? && v.value.Str? && |v.value.s| >= 2 {
      assert v.value.s[..2] == [v.value.s[0], v.value.s[1]];
      if UnmarshalFixed(v, size).Some? {
        HexTextOfFromHex(v.value.s[2..]);
      }
    }
  }

  lemma {:induction false} MemberOfDistinct(fields: seq<Field>, f: Field)
    requires Distinct(fields) && f in fields
    ensures Member(fields, f.key) == Some(f.value)
  {
    var n := |fields| - 1;
    var i :| 0 <= i < |fields| && fields[i] == f;
    if i < n {
      assert fields[..n][i] == f;
      MemberOfDistinct(fields[..n], f);
    }
  }

  /** Sorting keys moves members but loses none. */
  lemma MemberAfterSort(fields: seq<Field>, f: Field)
    requires Distinct(fields) && f in fields
    ensures Member(Arrange(SortValues(fields)), f.key) == Some(SortKeys(f.value))
  {
    SortValuesElements(fields);
    ArrangeFacts(SortValues(fields));
    assert SortField(f) in SortValues(fields);
    MemberOfDistinct(Arrange(SortValues(fields)), SortField(f));
  }

  lemma {:induction false} DigitSpanAll(t: string)
    requires AllDigits(t)
    ensures DigitSpan(t) == |t|
  {
    if t != "" {
      DigitSpanAll(t[1..]);
    }
  }

  lemma DecimalIsNumeral(n: nat)
    ensures IsNumeral(Decimal(n))
  {
    ValueOfDecimal(n);
    var t := Decimal(n);
    DigitSpanAll(t);
    assert t[|t|..] == "";
  }

  lemma ShareMembers(r: Recipient)
    requires r.shareBps >= 0
    ensures IsTree(ShareJson(r)) && SortKeys(ShareJson(r)).Obj?
    ensures var fields := SortKeys(ShareJson(r)).fields;
            && Member(fields, "recipient") == Some(Str(r.address))
            && Member(fields, "shareBps") == Some(Num(Decimal(r.shareBps)))
  {
    var a, b := Field("recipient", Str(r.address)), Field("shareBps", Num(Decimal(r.shareBps)));
    var fields := [a, b];
    DecimalIsNumeral(r.shareBps);
    assert a.key[0] != b.key[0];
    assert a in fields && b in fields && Distinct(fields);
    MemberAfterSort(fields, a);
    MemberAfterSort(fields, b);
  }

  lemma AddressSurvives(t: string)
    requires IsAddressText(t)
    ensures UnmarshalFixed(Some(Str(t)), 20) == Some(AddressOf(t))
  {
    assert t[..2][0] == t[0] && t[..2][1] == t[1];
  }

  lemma ShareSurvives(r: Recipient)
    requires IsAddressText(r.address) && 0 <= r.shareBps < 0x1_0000
    ensures IsTree(ShareJson(r))
    ensures UnmarshalShare(SortKeys(ShareJson(r))) == Some(Share(AddressOf(r.address), r.shareBps))
  {
    ShareMembers(r);
    AddressSurvives(r.address);
    ValueOfDecimal(r.shareBps);
  }

  function ShareOf(r: Recipient): Share
    requires RecipientOk(r)
  {
    Share(AddressOf(r.address), r.shareBps)
  }

  function SharesOf(rs: seq<Recipient>): seq<Share>
    requires RecipientsOk(rs)
  {
    seq(|rs|, i requires 0 <= i < |rs| => ShareOf(rs[i]))
  }

  lemma {:induction false} UnmarshalsAll(items: seq<Json>, shares: seq<Share>)
    requires |items| == |shares| && forall i | 0 <= i < |items| :: UnmarshalShare(items[i]) == Some(shares[i])
    ensures UnmarshalShares(items) == Some(shares)
  {
    if items != [] {
      UnmarshalsAll(items[1..], shares[1..]);
      assert shares == [shares[0]] + shares[1..];
    }
  }

  lemma SharesSurvive(rs: seq<Recipient>)
    requires RecipientsOk(rs)
    ensures var items := seq(|rs|, i requires 0 <= i < |rs| => ShareJson(rs[i]));
            IsTree(Arr(items)) && UnmarshalShares(SortItems(items)) == Some(SharesOf(rs))
  {
    var items := seq(|rs|, i requires 0 <= i < |rs| => ShareJson(rs[i]));
    forall i | 0 <= i < |rs|
      ensures IsTree(items[i]) && UnmarshalShare(SortItems(items)[i]) == Some(SharesOf(rs)[i])
    {
      ShareSurvives(rs[i]);
    }
    UnmarshalsAll(SortItems(items), SharesOf(rs));
  }

  /** The canonical payload of a checked recipient list parses to exactly its shares and salt. */
  lemma PayloadParses(rs: seq<Recipient>, salt: string)
    requires RecipientsOk(rs) && IsHexId(salt, 64)
    ensures UnmarshalConfig(Canonicalize(EnclaveConfig(rs, salt))) == Some(PrivateConfig(SharesOf(rs), WordOf(salt)))
  {
    var items := seq(|rs|, i requires 0 <= i < |rs| => ShareJson(rs[i]));
    SharesSurvive(rs);
    TwoMembers(salt, items);
    SaltSurvives(salt);
    FieldsRead(SortKeys(EnclaveConfig(rs, salt)).fields, salt, SortItems(items), SharesOf(rs), WordOf(salt));
  }

  lemma FieldsRead(fields: seq<Field>, salt: string, items: seq<Json>, shares: seq<Share>, word: Bytes32)
    requires Member(fields, "salt") == Some(Str(salt)) && UnmarshalFixed(Some(Str(salt)), 32) == Some(word)
    requires Member(fields, "shares") == Some(Arr(items)) && UnmarshalShares(items) == Some(shares)
    ensures UnmarshalFields(fields) == Some(PrivateConfig(shares, word))
  {
  }

  lemma SaltSurvives(salt: string)
    requires IsHexId(salt, 64)
    ensures UnmarshalFixed(Some(Str(salt)), 32) == Some(WordOf(salt))
  {
    assert salt[..2][0] == salt[0] && salt[..2][1] == salt[1];
  }

  lemma TwoMembers(salt: string, items: seq<Json>)
    requires IsTree(Arr(items))
    ensures var v := Obj([Field("salt", Str(salt)), Field("shares", Arr(items))]);
            && Parse(Canonicalize(v)) == Some(SortKeys(v))
            && SortKeys(v).Obj?
            && Member(SortKeys(v).fields, "salt") == Some(Str(salt))
            && Member(SortKeys(v).fields, "shares") == Some(Arr(SortItems(items)))
  {
    var a, b := Field("salt", Str(salt)), Field("shares", Arr(items));
    var fields := [a, b];
    assert |a.key| != |b.key|;
    assert a in fields && b in fields && Distinct(fields);
    assert IsTree(Obj(fields));
    ParseCanonical(Obj(fields));
    MemberAfterSort(fields, a);
    MemberAfterSort(fields, b);
  }

  lemma {:induction false} SumsAgree(rs: seq<Recipient>)
    requires RecipientsOk(rs)
    ensures SumBps(SharesOf(rs)) == Sum(Bps(rs))
  {
    if rs != [] {
      var n := |rs| - 1;
      SumsAgree(rs[..n]);
      assert SharesOf(rs)[..n] == SharesOf(rs[..n]);
      assert Bps(rs)[..n] == Bps(rs[..n]);
    }
  }

  /** The all-zero address as text. */
  function ZeroText(): string {
    "0x" + seq(40, _ => '0')
  }

  /** A draft that pays everything to one address text. */
  function OnePayee(asset: string, trigger: Trigger, address: string): PolicyIR {
    PolicyIR(1, "p", asset, trigger, [], [SplitTransfer([Recipient(address, 10_000, None)])])
  }

  lemma {:induction false} ZeroDigits(n: nat)
    ensures AllHex(seq(2 * n, _ => '0')) && FromHex(seq(2 * n, _ => '0')) == Zeros(n)
  {
    if n > 0 {
      ZeroDigits(n - 1);
      assert seq(2 * n, _ => '0')[..2 * n - 2] == seq(2 * (n - 1), _ => '0');
    }
  }

  lemma ZeroTextIsZero()
    ensures IsAddressText(ZeroText()) && AddressOf(ZeroText()) == ZERO_ADDRESS
  {
    ZeroDigits(20);
    assert ZeroText()[..2] == "0x" && ZeroText()[2..] == seq(40, _ => '0');
  }

  lemma OnePayeeAccepted(asset: string, trigger: Trigger, address: string)
    requires TriggerOk(trigger) && IsAddressText(address)
    ensures SchemaAccepts(OnePayee(asset, trigger, address))
  {
    var ir := OnePayee(asset, trigger, address);
    var rs := ir.actions[0].recipients;
    assert Bps(rs)[..0] == [] && Bps(rs)[0] == 10_000;
    assert Sum(Bps(rs)) == 10_000;
    assert Units("p"[1..]) == 0;
  }

  /**
   The schema does let a zero recipient through: the draft that pays it everything compiles whatever the trigger,
   if the asset is known, the salt has its 32 bytes and the checksum rule takes the all-zero text.
   */
  lemma ZeroRecipientCompiles(ctx: Context, asset: string, trigger: Trigger, salt: string)
    requires TriggerOk(trigger) && asset in ctx.knownAssets && IsHexId(salt, 64) && ctx.checksumOk(ZeroText())
    ensures var c := CompilePolicy(ctx, OnePayee(asset, trigger, ZeroText()), salt);
            && c.Some? && UnmarshalConfig(c.value.plaintext).Some?
            && !NoZeroRecipient(UnmarshalConfig(c.value.plaintext).value.shares)
  {
    var ir := OnePayee(asset, trigger, ZeroText());
    ZeroTextIsZero();
    OnePayeeAccepted(asset, trigger, ZeroText());
    EnclaveReadsWhatWasCommitted(ctx, ir, salt);
    assert UnmarshalConfig(CompilePolicy(ctx, ir, salt).value.plaintext).value.shares[0].recipient == ZERO_ADDRESS;
  }

  lemma SaltIsKept(salt: string)
    requires IsHexId(salt, 64)
    ensures "0x" + HexText(WordOf(salt)) == ToLower(salt)
  {
    HexTextOfFromHex(salt[2..]);
    assert salt == "0x" + salt[2..];
  }

  // --- the exact text that is sealed ------------------------------------------------------------------------

  function Quoted(t: string): string {
    "\"" + t + "\""
  }

  /** An object of two members. */
  function PairText(k: string, v: string, l: string, w: string): string {
    "{" + Quoted(k) + ":" + v + "," + Quoted(l) + ":" + w + "}"
  }

  function ShareText(r: Recipient): string
    requires r.shareBps >= 0
  {
    PairText("recipient", Quoted(r.address), "shareBps", Decimal(r.shareBps))
  }

  function ShareTexts(rs: seq<Recipient>): string
    requires RecipientsOk(rs)
  {
    if rs == [] then "" else ShareText(rs[0]) + (if |rs| == 1 then "" else "," + ShareTexts(rs[1..]))
  }

  predicate Letter(c: char) {
    'A' <= c <= 'Z' || 'a' <= c <= 'z'
  }

  lemma {:induction false} NothingToEscape(t: string)
    requires forall i | 0 <= i < |t| :: Letter(t[i]) || IsDigit(t[i])
    ensures Escape(t) == t
  {
    if t != "" {
      NothingToEscape(t[1..]);
    }
  }

  lemma PrintedHexId(t: string, digits: nat)
    requires IsHexId(t, digits)
    ensures PrintString(t) == Quoted(t)
  {
    assert forall i | 0 <= i < |t| :: t[i] == if i < 2 then t[..2][i] else t[2..][i - 2];
    NothingToEscape(t);
  }

  /** A key of the payload: a word, so no array index. */
  predicate IsWord(t: string) {
    t != "" && forall i | 0 <= i < |t| :: Letter(t[i])
  }

  lemma PayloadKeys()
    ensures IsWord("recipient") && IsWord("shareBps") && IsWord("salt") && IsWord("shares")
  {
  }

  lemma KeysAreOrdered()
    ensures UnitsLess("recipient", "shareBps") && UnitsLess("salt", "shares")
  {
    assert "salt"[0] == "shares"[0] == 's' && "salt"[1..][0] == 'a' && "shares"[1..][0] == 'h';
  }

  lemma JoinMembers(k: string, v: string, l: string, w: string)
    ensures "{" + (k + ":" + v + ("," + (l + ":" + w + "}"))) == "{" + k + ":" + v + "," + l + ":" + w + "}"
  {
    Associates(k + ":" + v, ",", l + ":" + w + "}");
    Associates("{", k + ":" + v + ",", l + ":" + w + "}");
    Associates("{", k + ":" + v, ",");
    Associates("{", k + ":", v);
    Associates("{", k, ":");
    var x := "{" + k + ":" + v + ",";
    Associates(x, l + ":" + w, "}");
    Associates(x, l + ":", w);
    Associates(x, l, ":");
  }

  lemma PairIsPrinted(k: string, v: Json, l: string, w: Json)
    ensures Print(Obj([Field(k, v), Field(l, w)]))
         == "{" + PrintString(k) + ":" + Print(v) + "," + PrintString(l) + ":" + Print(w) + "}"
  {
    var fields := [Field(k, v), Field(l, w)];
    assert fields[1..] == [Field(l, w)];
    assert PrintFields([Field(l, w)]) == PrintString(l) + ":" + Print(w) + "}";
    assert PrintFields(fields) == PrintString(k) + ":" + Print(v) + ("," + PrintFields(fields[1..]));
    JoinMembers(PrintString(k), Print(v), PrintString(l), Print(w));
  }

  lemma SortedPair(a: Field, b: Field)
    requires IsWord(a.key) && IsWord(b.key) && UnitsLess(a.key, b.key)
    ensures Canonicalize(Obj([a, b])) == PairText(a.key, Canonicalize(a.value), b.key, Canonicalize(b.value))
  {
    var x, y := Field(a.key, SortKeys(a.value)), Field(b.key, SortKeys(b.value));
    assert SortValues([a, b]) == [x, y];
    assert !IsDigit(a.key[0]) && !IsDigit(b.key[0]);
    ArrangeTwo(x, y);
    PairIsPrinted(x.key, x.value, y.key, y.value);
    NothingToEscape(a.key);
    NothingToEscape(b.key);
  }

  lemma ShareIsPrinted(r: Recipient)
    requires RecipientOk(r)
    ensures Canonicalize(ShareJson(r)) == ShareText(r)
  {
    PayloadKeys();
    KeysAreOrdered();
    SortedPair(Field("recipient", Str(r.address)), Field("shareBps", Num(Decimal(r.shareBps))));
    PrintedHexId(r.address, 40);
  }

  lemma {:induction false} SharesArePrinted(rs: seq<Recipient>, items: seq<Json>)
    requires RecipientsOk(rs) && rs != [] && |items| == |rs|
    requires forall i | 0 <= i < |rs| :: items[i] == SortKeys(ShareJson(rs[i]))
    ensures PrintItems(items) == ShareTexts(rs) + "]"
  {
    ShareIsPrinted(rs[0]);
    if |rs| > 1 {
      SharesArePrinted(rs[1..], items[1..]);
      JoinItems(ShareText(rs[0]), ShareTexts(rs[1..]));
    }
  }

  lemma JoinItems(first: string, rest: string)
    ensures first + ("," + (rest + "]")) == first + ("," + rest) + "]"
  {
    Associates(",", rest, "]");
    Associates(first, "," + rest, "]");
  }

  lemma ItemsArePrinted(rs: seq<Recipient>, items: seq<Json>)
    requires RecipientsOk(rs) && rs != [] && |items| == |rs|
    requires forall i | 0 <= i < |rs| :: items[i] == ShareJson(rs[i])
    ensures Canonicalize(Arr(items)) == "[" + ShareTexts(rs) + "]"
  {
    SharesArePrinted(rs, SortItems(items));
    Associates("[", ShareTexts(rs), "]");
  }

  /** The sealed text of every list, to the character: the salt, then recipient and proportion of each share, in order. */
  lemma PayloadText(rs: seq<Recipient>, salt: string)
    requires RecipientsOk(rs) && rs != [] && IsHexId(salt, 64)
    ensures Canonicalize(EnclaveConfig(rs, salt)) == PairText("salt", Quoted(salt), "shares", "[" + ShareTexts(rs) + "]")
  {
    PayloadKeys();
    KeysAreOrdered();
    ItemsArePrinted(rs, EnclaveConfig(rs, salt).fields[1].value.items);
    PrintedHexId(salt, 64);
    SortedPair(Field("salt", Str(salt)), EnclaveConfig(rs, salt).fields[1]);
  }

  /** So what is sealed holds neither the draft's name nor a recipient's label. */
  lemma CompiledText(ctx: Context, ir: PolicyIR, salt: string)
    requires CompilePolicy(ctx, ir, salt).Some?
    ensures ir.actions != [] && RecipientsOk(ir.actions[0].recipients)
    ensures CompilePolicy(ctx, ir, salt).value.plaintext
         == PairText("salt", Quoted(salt), "shares", "[" + ShareTexts(ir.actions[0].recipients) + "]")
  {
    SchemaChecksRecipients(ir);
    assert ir.actions[0] in ir.actions;
    PayloadText(ir.actions[0].recipients, salt);
  }

  /**
   The contract between the compiler and the enclave. For every policy and salt the compiler accepts, the
   plaintext parses, in policy order, to shares and a salt whose commitment is the one put on chain, and the
   enclave accepts them exactly when no recipient is the zero address, which the schema lets through.
   */
  lemma EnclaveReadsWhatWasCommitted(ctx: Context, ir: PolicyIR, salt: string)
    requires CompilePolicy(ctx, ir, salt).Some?
    ensures var c := CompilePolicy(ctx, ir, salt).value;
            && UnmarshalConfig(c.plaintext).Some?
            && var cfg := UnmarshalConfig(c.plaintext).value;
            && |cfg.shares| == |c.recipients| <= 10_000
            && (forall i | 0 <= i < |cfg.shares| ::
                  IsAddressText(c.recipients[i].address) && cfg.shares[i].recipient == AddressOf(c.recipients[i].address)
                  && cfg.shares[i].shareBps == c.recipients[i].shareBps)
            && ctx.keccak(Commitment.Buffer(cfg.shares, cfg.salt)) == c.publicArgs.commitment
            && SumBps(cfg.shares) == TOTAL_BPS
            && (CheckShares(cfg.shares).Valid? <==> NoZeroRecipient(cfg.shares))
            && "0x" + HexText(cfg.salt) == ToLower(salt)
    ensures var c := CompilePolicy(ctx, ir, salt).value;
            && c.ir == ir && c.name == ir.name
            && ir.actions != [] && c.recipients == ir.actions[0].recipients
            && c.publicArgs.assetSymbol == ir.asset
            && c.publicArgs.trigger == ir.trigger
            && c.publicArgs.conditions == ir.conditions
  {
    var c := CompilePolicy(ctx, ir, salt).value;
    var rs := c.recipients;
    SaltIsKept(salt);
    SchemaChecksRecipients(ir);
    assert ir.actions[0] in ir.actions;
    PayloadParses(rs, salt);
    var shares := SharesOf(rs);
    assert ShareCommitmentSet(rs) == Commitment.Widen(shares);
    Commitment.CommitmentsAgree(ctx.keccak, shares, WordOf(salt));
    SumsAgree(rs);
    ShareAtMostTotal(rs, 0);
    ValidMeansTenThousand(shares);
  }
}
