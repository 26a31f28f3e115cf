/**
 The head/tail encoding of the Solidity ABI specification ("Formal Specification of the Encoding"),
 for the types a commitment needs. This is what a general-purpose encoder computes.
 */
module Abi {
  import opened ByteStrings

  datatype Value =
    | Uint(v: nat)
    | Addr(a: Address)
    | Word(w: Bytes32)
    | Tuple(parts: seq<Value>)
    | Array(elems: seq<Value>)

  predicate Dynamic(x: Value) {
    match x
    case Array(_) => true
    case Tuple(parts) => exists p | p in parts :: Dynamic(p)
    case _ => false
  }

  function Encode(x: Value): Bytes
    decreases x, 0
  {
    match x
    case Uint(v) => PadInt(v)
    case Addr(a) => LeftPad(a, 32)
    case Word(w) => w
    case Tuple(parts) => HeadTail(parts)
    case Array(elems) => PadInt(|elems|) + HeadTail(elems)
  }

  function HeadTail(xs: seq<Value>): Bytes
    decreases xs, 2
  {
    Heads(xs, HeadsSize(xs)) + Tails(xs)
  }

  function HeadsSize(xs: seq<Value>): nat
    decreases xs, 1
  {
    if xs == [] then 0
    else (if Dynamic(xs[0]) then 32 else |Encode(xs[0])|) + HeadsSize(xs[1..])
  }

  /** A dynamic component leaves the offset of its tail in the head; a static one is inlined. */
  function Heads(xs: seq<Value>, offset: nat): Bytes
    decreases xs, 1
  {
    if xs == [] then []
    else if Dynamic(xs[0]) then PadInt(offset) + Heads(xs[1..], offset + |Encode(xs[0])|)
    else Encode(xs[0]) + Heads(xs[1..], offset)
  }

  function Tails(xs: seq<Value>): Bytes
    decreases xs, 1
  {
    if xs == [] then []
    else if Dynamic(xs[0]) then Encode(xs[0]) + Tails(xs[1..])
    else Tails(xs[1..])
  }
}
