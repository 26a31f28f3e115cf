/** The handler registry: exact pair first, then the wildcard command. */
module Dispatch {
  import opened ByteStrings
  import opened PolicyTypes
  import opened Text
  import opened Encoding

  datatype Registration<+H> = Registration(opType: string, opCommand: string, handler: H)

  const EMPTY_BYTES32 := EncodeHex(Padded([]))

  /** Lower-case and prefixed. */
  function Normalize(h: string): string {
    if h == "" then EMPTY_BYTES32
    else
      var lower := ToLower(h);
      if |lower| >= 2 && lower[..2] == "0x" then lower else "0x" + lower
  }

  ghost predicate Exact<H>(r: Registration<H>, t: string, c: string) {
    r.opType == t && r.opCommand == c
  }

  ghost predicate Wildcard<H>(r: Registration<H>, t: string) {
    r.opType == t && r.opCommand == EMPTY_BYTES32
  }

  /** The handler at i is the first one registered for the pair, or no pair was and it is the first wildcard. */
  ghost predicate Chosen<H>(rs: seq<Registration<H>>, i: int, t: string, c: string) {
    && 0 <= i < |rs|
    && ((Exact(rs[i], t, c) && forall k | 0 <= k < i :: !Exact(rs[k], t, c))
        || (Wildcard(rs[i], t) && (forall k | 0 <= k < i :: !Wildcard(rs[k], t))
            && forall k | 0 <= k < |rs| :: !Exact(rs[k], t, c)))
  }

  class Framework<H> {
    var handlers: seq<Registration<H>>

    constructor ()
      ensures handlers == []
    {
      handlers := [];
    }

    /** Names longer than 32 bytes are refused and leave the registry as it was. */
    method Handle(opType: Bytes, opCommand: Bytes, handler: H) returns (ok: bool)
      modifies this
      ensures ok <==> |opType| <= 32 && |opCommand| <= 32
      ensures handlers == if ok then old(handlers) + [Entry(opType, opCommand, handler)] else old(handlers)
    {
      var t := StringToBytes32Hex(opType);
      if t.None? {
        return false;
      }
      var c := StringToBytes32Hex(opCommand);
      if c.None? {
        return false;
      }
      handlers := handlers + [Registration(t.value, c.value, handler)];
      ok := true;
    }

    method Lookup(opType: string, opCommand: string) returns (h: Option<H>)
      ensures match h
              case None => forall k | 0 <= k < |handlers| ::
                !Exact(handlers[k], Normalize(opType), Normalize(opCommand)) && !Wildcard(handlers[k], Normalize(opType))
              case Some(handler) => exists i ::
                Chosen(handlers, i, Normalize(opType), Normalize(opCommand)) && handlers[i].handler == handler
    {
      var t, c := Normalize(opType), Normalize(opCommand);
      for i := 0 to |handlers|
        invariant forall k | 0 <= k < i :: !Exact(handlers[k], t, c)
      {
        if handlers[i].opType == t && handlers[i].opCommand == c {
          assert Chosen(handlers, i, t, c);
          return Some(handlers[i].handler);
        }
      }
      for i := 0 to |handlers|
        invariant forall k | 0 <= k < i :: !Wildcard(handlers[k], t)
      {
        if handlers[i].opType == t && handlers[i].opCommand == EMPTY_BYTES32 {
          assert Chosen(handlers, i, t, c);
          return Some(handlers[i].handler);
        }
      }
      h := None;
    }
  }

  function Entry<H>(opType: Bytes, opCommand: Bytes, handler: H): Registration<H>
    requires |opType| <= 32 && |opCommand| <= 32
  {
    Registration(EncodeHex(Padded(opType)), EncodeHex(Padded(opCommand)), handler)
  }

  /** The choice is determined: there is never a second candidate. */
  lemma ChoiceIsUnique<H>(rs: seq<Registration<H>>, i: int, j: int, t: string, c: string)
    requires Chosen(rs, i, t, c) && Chosen(rs, j, t, c)
    ensures i == j
  {
  }

  /** Hex case, prefix case and a missing prefix make no difference to what is asked for. */
  lemma NormalizeIgnoresCase(a: string, b: string)
    requires a != "" && ToLower(a) == ToLower(b)
    ensures Normalize(a) == Normalize(b)
  {
    assert |a| == |ToLower(a)| && |b| == |ToLower(b)|;
  }

  /** Every spelling of a name's bytes32 normalises to the registered spelling. */
  lemma NormalizeFindsName(name: Bytes, asked: string)
    requires |name| <= 32 && ToLower(asked) == EncodeHex(Padded(name))
    ensures Normalize(asked) == EncodeHex(Padded(name))
  {
    assert |asked| == |ToLower(asked)|;
    assert EncodeHex(Padded(name))[..2] == "0x";
  }

  /** Nothing asks for the all-zero command; a prefix is added where there is none; and everything is lower case. */
  lemma NormalizeExactly(h: string)
    ensures h == "" ==> Normalize(h) == "0x" + seq(64, _ => '0')
    ensures h != "" && (|h| < 2 || h[0] != '0' || (h[1] != 'x' && h[1] != 'X')) ==> Normalize(h) == "0x" + ToLower(h)
    ensures |h| >= 2 && h[0] == '0' && (h[1] == 'x' || h[1] == 'X') ==> Normalize(h) == ToLower(h)
  {
    if h == "" {
      ZeroHex(32);
      assert Padded([]) == Zeros(32);
    } else {
      var lower := ToLower(h);
      assert |lower| == |h|;
      assert |h| >= 2 ==> lower[..2] == [lower[0], lower[1]];
    }
  }

  lemma {:induction false} ZeroHex(n: nat)
    ensures HexText(Zeros(n)) == seq(2 * n, _ => '0')
  {
    if n > 0 {
      ZeroHex(n - 1);
      assert Zeros(n)[..n - 1] == Zeros(n - 1);
    }
  }

  /** One registration as the extension wrote it: two names and a handler. */
  datatype Named<+H> = Named(opType: Bytes, opCommand: Bytes, handler: H)

  predicate IsName(b: Bytes) {
    |b| <= 32 && !EndsInNul(b)
  }

  ghost predicate WellNamed<H>(n: Named<H>) {
    IsName(n.opType) && IsName(n.opCommand)
  }

  ghost predicate Entries<H>(names: seq<Named<H>>, rs: seq<Registration<H>>) {
    |rs| == |names| && forall i | 0 <= i < |names| ::
      WellNamed(names[i]) && rs[i] == Entry(names[i].opType, names[i].opCommand, names[i].handler)
  }

  predicate Registered<H>(names: seq<Named<H>>, opType: Bytes, opCommand: Bytes) {
    exists k | 0 <= k < |names| :: names[k].opType == opType && names[k].opCommand == opCommand
  }

  ghost predicate FirstNamed<H>(names: seq<Named<H>>, i: int, opType: Bytes, opCommand: Bytes) {
    && 0 <= i < |names| && names[i].opType == opType && names[i].opCommand == opCommand
    && forall k | 0 <= k < i :: !(names[k].opType == opType && names[k].opCommand == opCommand)
  }

  /**
   Dispatch in terms of names: whatever the case of the hex it is asked with, a found handler was registered
   under the very names asked for, first of those, or, when nobody registered the pair, under the type alone.
   */
  lemma FoundUnderItsName<H>(names: seq<Named<H>>, rs: seq<Registration<H>>, i: int,
                             opType: Bytes, opCommand: Bytes, askedType: string, askedCommand: string)
    requires Entries(names, rs)
    requires IsName(opType) && IsName(opCommand)
    requires ToLower(askedType) == EncodeHex(Padded(opType)) && ToLower(askedCommand) == EncodeHex(Padded(opCommand))
    requires Chosen(rs, i, Normalize(askedType), Normalize(askedCommand))
    ensures names[i].opType == opType
    ensures if Registered(names, opType, opCommand) then FirstNamed(names, i, opType, opCommand)
            else FirstNamed(names, i, opType, [])
  {
    NormalizeFindsName(opType, askedType);
    NormalizeFindsName(opCommand, askedCommand);
    NamesAreInjective(names[i].opType, opType);
    NamesAreInjective(names[i].opCommand, opCommand);
    NamesAreInjective(names[i].opCommand, []);
  }
}
