/**
 `canonicalize`: key order is fixed at every depth and big integers become decimal strings. A JavaScript
 object enumerates its array-index keys first, in ascending order, whatever order they were added in.
 */
module Canonical {
  import opened PolicyTypes
  import opened Text
  import opened Json

  // --- two strict orders on keys ---------------------------------------------------------------------

  datatype Order = ByUnits | ByIndex

  /** Rank of a character in UTF-16 order: surrogate pairs come before U+E000 to U+FFFF. */
  function Rank(c: char): int {
    if 0xE000 <= c as int < 0x1_0000 then c as int + 0x11_0000 else c as int
  }

  /** The default order of `Array.prototype.sort` on strings. */
  predicate UnitsLess(a: string, b: string) {
    b != "" && (a == "" || (if a[0] == b[0] then UnitsLess(a[1..], b[1..]) else Rank(a[0]) < Rank(b[0])))
  }

  /** On numerals without leading zeros, ByIndex is numeric order. */
  predicate Less(o: Order, a: string, b: string) {
    match o
    case ByUnits => UnitsLess(a, b)
    case ByIndex => |a| < |b| || (|a| == |b| && UnitsLess(a, b))
  }

  lemma {:induction false} UnitsTransitive(a: string, b: string, c: string)
    ensures UnitsLess(a, b) && UnitsLess(b, c) ==> UnitsLess(a, c)
  {
    if a != "" && b != "" && c != "" {
      UnitsTransitive(a[1..], b[1..], c[1..]);
    }
  }

  lemma {:induction false} UnitsConnected(a: string, b: string)
    ensures a == b || UnitsLess(a, b) || UnitsLess(b, a)
    ensures !(UnitsLess(a, b) && UnitsLess(b, a)) && !UnitsLess(a, a)
  {
    if a != "" {
      UnitsConnected(a[1..], a[1..]);
      if b != "" {
        UnitsConnected(a[1..], b[1..]);
        assert a == [a[0]] + a[1..] && b == [b[0]] + b[1..];
      }
    }
  }

  lemma StrictOrder(o: Order, a: string, b: string, c: string)
    ensures Less(o, a, b) && Less(o, b, c) ==> Less(o, a, c)
    ensures a == b || Less(o, a, b) || Less(o, b, a)
    ensures !(Less(o, a, b) && Less(o, b, a))
  {
    UnitsTransitive(a, b, c);
    UnitsConnected(a, b);
  }

  // --- the same order on code units ------------------------------------------------------------------

  function Utf16Char(c: char): seq<int> {
    var v := c as int;
    if v < 0x1_0000 then [v] else [0xD800 + (v - 0x1_0000) / 0x400, 0xDC00 + (v - 0x1_0000) % 0x400]
  }

  function Utf16(s: string): seq<int> {
    if s == "" then [] else Utf16Char(s[0]) + Utf16(s[1..])
  }

  predicate LexLess(a: seq<int>, b: seq<int>) {
    b != [] && (a == [] || a[0] < b[0] || (a[0] == b[0] && LexLess(a[1..], b[1..])))
  }

  lemma {:induction false} LexAfterPrefix(p: seq<int>, a: seq<int>, b: seq<int>)
    ensures LexLess(p + a, p + b) <==> LexLess(a, b)
  {
    if p == [] {
      assert p + a == a && p + b == b;
    } else {
      assert (p + a)[1..] == p[1..] + a && (p + b)[1..] == p[1..] + b;
      LexAfterPrefix(p[1..], a, b);
    }
  }

  lemma LexOfChars(c: char, d: char, a: seq<int>, b: seq<int>)
    requires c != d
    ensures LexLess(Utf16Char(c) + a, Utf16Char(d) + b) <==> Rank(c) < Rank(d)
  {
    var x, y := Utf16Char(c), Utf16Char(d);
    assert (x + a)[0] == x[0] && (y + b)[0] == y[0];
    if x[0] == y[0] {
      assert |x| == |y| == 2 && (x + a)[1..][0] == x[1] && (y + b)[1..][0] == y[1];
    }
  }

  /** Comparing characters by rank is comparing UTF-16 code units. */
  lemma {:induction false} UnitsOrder(a: string, b: string)
    ensures UnitsLess(a, b) <==> LexLess(Utf16(a), Utf16(b))
  {
    if a != "" && b != "" {
      if a[0] == b[0] {
        LexAfterPrefix(Utf16Char(a[0]), Utf16(a[1..]), Utf16(b[1..]));
        UnitsOrder(a[1..], b[1..]);
      } else {
        LexOfChars(a[0], b[0], Utf16(a[1..]), Utf16(b[1..]));
      }
    }
  }

  // --- sorting ------------------------------------------------------------------------------------------

  predicate Distinct(fs: seq<Field>) {
    forall i, j | 0 <= i < j < |fs| :: fs[i].key != fs[j].key
  }

  predicate Sorted(o: Order, fs: seq<Field>) {
    forall i, j | 0 <= i < j < |fs| :: Less(o, fs[i].key, fs[j].key)
  }

  ghost predicate SameElements(a: seq<Field>, b: seq<Field>) {
    forall f :: f in a <==> f in b
  }

  function Insert(o: Order, f: Field, fs: seq<Field>): seq<Field> {
    if fs == [] || Less(o, f.key, fs[0].key) then [f] + fs else [fs[0]] + Insert(o, f, fs[1..])
  }

  function Sort(o: Order, fs: seq<Field>): seq<Field> {
    if fs == [] then [] else Insert(o, fs[0], Sort(o, fs[1..]))
  }

  lemma {:induction false} InsertSorts(o: Order, f: Field, fs: seq<Field>)
    requires Sorted(o, fs) && forall x | x in fs :: x.key != f.key
    ensures Sorted(o, Insert(o, f, fs))
    ensures forall x :: x in Insert(o, f, fs) <==> x == f || x in fs
  {
    if fs != [] {
      StrictOrder(o, f.key, fs[0].key, fs[0].key);
      if Less(o, f.key, fs[0].key) {
        forall j | 0 <= j < |fs| ensures Less(o, f.key, fs[j].key) {
          StrictOrder(o, f.key, fs[0].key, fs[j].key);
        }
      } else {
        InsertSorts(o, f, fs[1..]);
        assert fs == [fs[0]] + fs[1..];
        var rest := Insert(o, f, fs[1..]);
        forall j | 0 <= j < |rest| ensures Less(o, fs[0].key, rest[j].key) {
          assert rest[j] in rest;
        }
      }
    }
  }

  lemma {:induction false} SortSorts(o: Order, fs: seq<Field>)
    requires Distinct(fs)
    ensures Sorted(o, Sort(o, fs)) && SameElements(Sort(o, fs), fs)
  {
    if fs != [] {
      SortSorts(o, fs[1..]);
      InsertSorts(o, fs[0], Sort(o, fs[1..]));
      assert fs == [fs[0]] + fs[1..];
    }
  }

  lemma SortedDistinct(o: Order, fs: seq<Field>)
    requires Sorted(o, fs)
    ensures Distinct(fs)
  {
    forall i, j | 0 <= i < j < |fs| ensures fs[i].key != fs[j].key {
      StrictOrder(o, fs[i].key, fs[j].key, fs[j].key);
    }
  }

  /** There is only one sorted arrangement, so any sorting algorithm computes this one. */
  lemma {:induction false} SortedUnique(o: Order, a: seq<Field>, b: seq<Field>)
    requires Sorted(o, a) && Sorted(o, b) && SameElements(a, b)
    ensures a == b
  {
    assert a != [] ==> a[0] in b;
    assert b != [] ==> b[0] in a;
    if a != [] {
      StrictOrder(o, a[0].key, b[0].key, a[0].key);
      assert a[0] == b[0];
      SortedDistinct(o, a);
      SortedDistinct(o, b);
      assert a == [a[0]] + a[1..] && b == [b[0]] + b[1..];
      forall f ensures f in a[1..] <==> f in b[1..] {
        assert f in a <==> f in b;
      }
      SortedUnique(o, a[1..], b[1..]);
    }
  }

  // --- enumeration order --------------------------------------------------------------------------------

  predicate IsArrayIndex(key: string) {
    key != "" && AllDigits(key) && (key[0] == '0' ==> |key| == 1) && DecimalValue(key) < 0xFFFF_FFFF
  }

  function Pick(fs: seq<Field>, indices: bool): seq<Field> {
    if fs == [] then []
    else (if IsArrayIndex(fs[0].key) == indices then [fs[0]] else []) + Pick(fs[1..], indices)
  }

  /** `Object.fromEntries`, as its result enumerates. */
  function FromEntries(fs: seq<Field>): seq<Field> {
    Sort(ByIndex, Pick(fs, true)) + Pick(fs, false)
  }

  function Arrange(fs: seq<Field>): seq<Field> {
    FromEntries(Sort(ByUnits, fs))
  }

  lemma {:induction false} PickFacts(fs: seq<Field>, indices: bool)
    requires Distinct(fs)
    ensures Distinct(Pick(fs, indices))
    ensures forall f :: f in Pick(fs, indices) <==> f in fs && IsArrayIndex(f.key) == indices
  {
    if fs != [] {
      PickFacts(fs[1..], indices);
      assert fs == [fs[0]] + fs[1..];
      var rest := Pick(fs[1..], indices);
      forall j | 0 <= j < |rest| ensures fs[0].key != rest[j].key {
        assert rest[j] in fs[1..];
      }
    }
  }

  lemma ArrangeFacts(fs: seq<Field>)
    requires Distinct(fs)
    ensures Distinct(Arrange(fs)) && SameElements(Arrange(fs), fs)
  {
    SortSorts(ByUnits, fs);
    var s := Sort(ByUnits, fs);
    SortedDistinct(ByUnits, s);
    PickFacts(s, true);
    PickFacts(s, false);
    var low, high := Sort(ByIndex, Pick(s, true)), Pick(s, false);
    SortSorts(ByIndex, Pick(s, true));
    SortedDistinct(ByIndex, low);
    forall i, j | 0 <= i < |low| && 0 <= j < |high| ensures low[i].key != high[j].key {
      assert low[i] in Pick(s, true) && high[j] in Pick(s, false);
    }
  }

  /** Only the set of members matters, not the order they came in. */
  lemma ArrangeForgetsOrder(a: seq<Field>, b: seq<Field>)
    requires Distinct(a) && Distinct(b) && SameElements(a, b)
    ensures Arrange(a) == Arrange(b)
  {
    SortSorts(ByUnits, a);
    SortSorts(ByUnits, b);
    SortedUnique(ByUnits, Sort(ByUnits, a), Sort(ByUnits, b));
  }

  lemma {:induction false} PickSorted(o: Order, fs: seq<Field>, indices: bool)
    requires Sorted(o, fs)
    ensures Sorted(o, Pick(fs, indices))
    ensures forall f | f in Pick(fs, indices) :: f in fs && IsArrayIndex(f.key) == indices
  {
    if fs != [] {
      PickSorted(o, fs[1..], indices);
      var rest := Pick(fs[1..], indices);
      forall j | 0 <= j < |rest| ensures Less(o, fs[0].key, rest[j].key) {
        assert rest[j] in fs[1..];
      }
    }
  }

  /** Array indices come first, shorter before longer; all else is in the order of the code units. */
  ghost predicate KeyBefore(a: string, b: string) {
    if IsArrayIndex(b) then
      IsArrayIndex(a) && (|a| < |b| || (|a| == |b| && LexLess(Utf16(a), Utf16(b))))
    else IsArrayIndex(a) || LexLess(Utf16(a), Utf16(b))
  }

  lemma KeysAscend(fs: seq<Field>, i: nat, j: nat)
    requires Distinct(fs) && i < j < |Arrange(fs)|
    ensures KeyBefore(Arrange(fs)[i].key, Arrange(fs)[j].key)
  {
    SortSorts(ByUnits, fs);
    var s := Sort(ByUnits, fs);
    SortedDistinct(ByUnits, s);
    PickFacts(s, true);
    PickSorted(ByUnits, s, false);
    var low, high := Sort(ByIndex, Pick(s, true)), Pick(s, false);
    SortSorts(ByIndex, Pick(s, true));
    var a, b := Arrange(fs)[i], Arrange(fs)[j];
    UnitsOrder(a.key, b.key);
    if j < |low| {
      assert a == low[i] && b == low[j] && a in low && b in low;
    } else if i < |low| {
      assert a == low[i] && a in low && b == high[j - |low|] && b in high;
    } else {
      assert a == high[i - |low|] && b == high[j - |low|] && b in high;
    }
  }

  // --- sortKeys and canonicalize --------------------------------------------------------------------------

  function SortKeys(v: Json): Json
    decreases v, 1
  {
    match v
    case Big(n) => Str(DecimalInt(n))
    case Arr(items) => Arr(SortItems(items))
    case Obj(fields) => Obj(Arrange(SortValues(fields)))
    case _ => v
  }

  function SortItems(items: seq<Json>): (r: seq<Json>)
    ensures |r| == |items| && forall i | 0 <= i < |items| :: r[i] == SortKeys(items[i])
    decreases items, 0
  {
    if items == [] then [] else [SortKeys(items[0])] + SortItems(items[1..])
  }

  function SortValues(fields: seq<Field>): (r: seq<Field>)
    ensures |r| == |fields|
    ensures forall i | 0 <= i < |fields| :: r[i] == Field(fields[i].key, SortKeys(fields[i].value))
    decreases fields, 0
  {
    if fields == [] then []
    else [Field(fields[0].key, SortKeys(fields[0].value))] + SortValues(fields[1..])
  }

  function Canonicalize(v: Json): string {
    Print(SortKeys(v))
  }

  /** Every object of the canonical tree lists its keys in ascending order. */
  lemma CanonicalKeysAscend(fields: seq<Field>, i: nat, j: nat)
    requires Distinct(fields)
    ensures SortKeys(Obj(fields)).Obj?
    ensures i < j < |SortKeys(Obj(fields)).fields| ==>
      KeyBefore(SortKeys(Obj(fields)).fields[i].key, SortKeys(Obj(fields)).fields[j].key)
  {
    SortValuesKeepDistinct(fields);
    if i < j < |SortKeys(Obj(fields)).fields| {
      KeysAscend(SortValues(fields), i, j);
    }
  }

  lemma SortValuesKeepDistinct(fields: seq<Field>)
    requires Distinct(fields)
    ensures Distinct(SortValues(fields))
  {
  }

  /** Two members already in order stay where they are. */
  lemma PickOne(f: Field, indices: bool)
    ensures Pick([f], indices) == if IsArrayIndex(f.key) == indices then [f] else []
  {
    assert [f][1..] == [] && Pick([], indices) == [];
    assert [f] + [] == [f];
  }

  lemma PickTwo(a: Field, b: Field)
    requires !IsArrayIndex(a.key) && !IsArrayIndex(b.key)
    ensures Pick([a, b], true) == [] && Pick([a, b], false) == [a, b]
  {
    assert [a, b][1..] == [b];
    PickOne(b, true);
    PickOne(b, false);
    assert [a] + [b] == [a, b] && [] + Pick([b], true) == [];
  }

  lemma SortTwo(a: Field, b: Field)
    requires UnitsLess(a.key, b.key)
    ensures Sort(ByUnits, [a, b]) == [a, b]
  {
    assert [a, b][1..] == [b] && [b][1..] == [];
    assert Sort(ByUnits, []) == [];
    assert Sort(ByUnits, [b]) == [b];
    assert [a] + [b] == [a, b];
  }

  lemma ArrangeTwo(a: Field, b: Field)
    requires UnitsLess(a.key, b.key) && !IsArrayIndex(a.key) && !IsArrayIndex(b.key)
    ensures Arrange([a, b]) == [a, b]
  {
    SortTwo(a, b);
    PickTwo(a, b);
    assert Sort(ByIndex, []) == [] && [] + [a, b] == [a, b];
  }

  /** A JSON tree: object keys are unique and every number is a numeral. */
  ghost predicate IsTree(v: Json) {
    match v
    case Num(t) => IsNumeral(t)
    case Arr(items) => forall x | x in items :: IsTree(x)
    case Obj(fields) => Distinct(fields) && forall f | f in fields :: IsTree(f.value)
    case _ => true
  }

  /** Equal up to the order of keys, at every depth, and with a big integer the same as its decimal string. */
  ghost predicate Same(v: Json, w: Json)
    decreases v
  {
    match v
    case Arr(xs) => w.Arr? && |xs| == |w.items| && forall i | 0 <= i < |xs| :: Same(xs[i], w.items[i])
    case Obj(fs) => w.Obj? && SameFields(fs, w.fields)
    case _ => !w.Arr? && !w.Obj? && SortKeys(v) == SortKeys(w)
  }

  /** The same keys, with the same value under each. */
  ghost predicate SameFields(fs: seq<Field>, gs: seq<Field>)
    decreases fs
  {
    Keys(fs) == Keys(gs) && forall f | f in fs :: f.key in Keys(gs) && Same(f.value, Lookup(gs, f.key))
  }

  function Keys(fs: seq<Field>): set<string> {
    set f | f in fs :: f.key
  }

  function Lookup(fs: seq<Field>, key: string): (v: Json)
    requires key in Keys(fs)
    ensures Field(key, v) in fs
  {
    if fs[0].key == key then fs[0].value else Lookup(fs[1..], key)
  }

  function SortField(f: Field): Field {
    Field(f.key, SortKeys(f.value))
  }

  lemma {:induction false} SortKeysPrintable(v: Json)
    requires IsTree(v)
    ensures Printable(SortKeys(v)) && IsTree(SortKeys(v))
  {
    match v {
      case Arr(items) =>
        forall x | x in SortItems(items) ensures Printable(x) && IsTree(x) {
          var i :| 0 <= i < |items| && SortItems(items)[i] == x;
          SortKeysPrintable(items[i]);
        }
      case Obj(fields) =>
        ArrangeFacts(SortValues(fields));
        forall f | f in Arrange(SortValues(fields)) ensures Printable(f.value) && IsTree(f.value) {
          var i :| 0 <= i < |fields| && SortValues(fields)[i] == f;
          SortKeysPrintable(fields[i].value);
        }
      case _ =>
    }
  }

  /** Parsing the canonical text gives back the sorted tree. */
  lemma ParseCanonical(v: Json)
    requires IsTree(v)
    ensures Parse(Canonicalize(v)) == Some(SortKeys(v))
  {
    SortKeysPrintable(v);
    ParseUndoesPrint(SortKeys(v));
  }

  /** Sorting a sorted tree changes nothing, array-index keys included. */
  lemma {:induction false} SortKeysIdempotent(v: Json)
    requires IsTree(v)
    ensures SortKeys(SortKeys(v)) == SortKeys(v)
  {
    match v {
      case Arr(items) =>
        forall i | 0 <= i < |items| ensures SortKeys(SortItems(items)[i]) == SortItems(items)[i] {
          SortKeysIdempotent(items[i]);
        }
        assert SortItems(SortItems(items)) == SortItems(items);
      case Obj(fields) =>
        var sorted := SortValues(fields);
        var arranged := Arrange(sorted);
        ArrangeFacts(sorted);
        forall i | 0 <= i < |arranged|
          ensures SortKeys(arranged[i].value) == arranged[i].value
        {
          assert arranged[i] in sorted;
          var k :| 0 <= k < |fields| && sorted[k] == arranged[i];
          SortKeysIdempotent(fields[k].value);
        }
        assert SortValues(arranged) == arranged;
        ArrangeForgetsOrder(arranged, sorted);
      case _ =>
    }
  }

  lemma SortValuesElements(fs: seq<Field>)
    requires Distinct(fs)
    ensures Distinct(SortValues(fs))
    ensures forall f | f in fs :: SortField(f) in SortValues(fs)
    ensures forall x | x in SortValues(fs) :: exists f | f in fs :: SortField(f) == x
  {
    var sorted := SortValues(fs);
    forall f | f in fs ensures SortField(f) in sorted {
      var i :| 0 <= i < |fs| && fs[i] == f;
      assert sorted[i] == SortField(f);
    }
    forall x | x in sorted ensures exists f | f in fs :: SortField(f) == x {
      var i :| 0 <= i < |sorted| && sorted[i] == x;
      assert fs[i] in fs && SortField(fs[i]) == x;
    }
  }

  lemma {:induction false} SameSorts(v: Json, w: Json)
    requires IsTree(v) && IsTree(w) && Same(v, w)
    ensures SortKeys(v) == SortKeys(w)
    decreases v, 1
  {
    match v {
      case Arr(xs) =>
        forall i | 0 <= i < |xs| ensures SortKeys(xs[i]) == SortKeys(w.items[i]) {
          SameSorts(xs[i], w.items[i]);
        }
        assert SortItems(xs) == SortItems(w.items);
      case Obj(fs) => SameSortsFields(fs, w.fields);
      case _ =>
    }
  }

  lemma {:induction false} SameSortsFields(fs: seq<Field>, gs: seq<Field>)
    requires IsTree(Obj(fs)) && IsTree(Obj(gs)) && SameFields(fs, gs)
    ensures Arrange(SortValues(fs)) == Arrange(SortValues(gs))
    decreases fs, 0
  {
    forall f | f in fs ensures SortKeys(f.value) == SortKeys(Lookup(gs, f.key)) {
      SameSorts(f.value, Lookup(gs, f.key));
    }
    MatchedSort(fs, gs);
  }

  lemma LookupUnique(fs: seq<Field>, f: Field)
    requires Distinct(fs) && f in fs
    ensures f.key in Keys(fs) && Lookup(fs, f.key) == f.value
  {
    var g := Field(f.key, Lookup(fs, f.key));
    var i :| 0 <= i < |fs| && fs[i] == f;
    var j :| 0 <= j < |fs| && fs[j] == g;
  }

  lemma MatchedSort(fs: seq<Field>, gs: seq<Field>)
    requires Distinct(fs) && Distinct(gs) && Keys(fs) == Keys(gs)
    requires forall f | f in fs :: f.key in Keys(gs) && SortKeys(f.value) == SortKeys(Lookup(gs, f.key))
    ensures Arrange(SortValues(fs)) == Arrange(SortValues(gs))
  {
    SortValuesElements(fs);
    SortValuesElements(gs);
    forall x | x in SortValues(fs) ensures x in SortValues(gs) {
      var f :| f in fs && SortField(f) == x;
      assert SortField(Field(f.key, Lookup(gs, f.key))) == x;
    }
    forall x | x in SortValues(gs) ensures x in SortValues(fs) {
      var g :| g in gs && SortField(g) == x;
      LookupUnique(gs, g);
      assert g.key in Keys(fs);
      var f :| f in fs && f.key == g.key;
      assert SortField(f) == x;
    }
    ArrangeForgetsOrder(SortValues(fs), SortValues(gs));
  }

  lemma {:induction false} SortsSame(v: Json, w: Json)
    requires IsTree(v) && IsTree(w) && SortKeys(v) == SortKeys(w)
    ensures Same(v, w)
    decreases v, 1
  {
    match v {
      case Arr(xs) =>
        forall i | 0 <= i < |xs| ensures Same(xs[i], w.items[i]) {
          assert SortItems(xs)[i] == SortItems(w.items)[i];
          SortsSame(xs[i], w.items[i]);
        }
      case Obj(fs) => SortsSameFields(fs, w.fields);
      case _ =>
    }
  }

  lemma {:induction false} SortsSameFields(fs: seq<Field>, gs: seq<Field>)
    requires IsTree(Obj(fs)) && IsTree(Obj(gs))
    requires Arrange(SortValues(fs)) == Arrange(SortValues(gs))
    ensures SameFields(fs, gs)
    decreases fs, 0
  {
    MatchedKeys(fs, gs);
    forall f | f in fs ensures Same(f.value, Lookup(gs, f.key)) {
      SortsSame(f.value, Lookup(gs, f.key));
    }
  }

  /** Each member of one object has a member of the other that sorts to the same. */
  lemma Matched(fs: seq<Field>, gs: seq<Field>, f: Field) returns (g: Field)
    requires Distinct(fs) && Distinct(gs) && f in fs
    requires Arrange(SortValues(fs)) == Arrange(SortValues(gs))
    ensures g in gs && g.key == f.key && SortKeys(g.value) == SortKeys(f.value)
  {
    SortValuesElements(fs);
    SortValuesElements(gs);
    ArrangeFacts(SortValues(fs));
    ArrangeFacts(SortValues(gs));
    assert SortField(f) in Arrange(SortValues(fs));
    g :| g in gs && SortField(g) == SortField(f);
  }

  lemma MatchedKeys(fs: seq<Field>, gs: seq<Field>)
    requires Distinct(fs) && Distinct(gs)
    requires Arrange(SortValues(fs)) == Arrange(SortValues(gs))
    ensures Keys(fs) == Keys(gs)
    ensures forall f | f in fs :: f.key in Keys(gs) && SortKeys(f.value) == SortKeys(Lookup(gs, f.key))
  {
    forall f | f in fs ensures f.key in Keys(gs) && SortKeys(f.value) == SortKeys(Lookup(gs, f.key)) {
      var g := Matched(fs, gs, f);
      LookupUnique(gs, g);
    }
    forall g | g in gs ensures g.key in Keys(fs) {
      var f := Matched(gs, fs, g);
      LookupUnique(fs, f);
    }
  }

  /**
   The canonical text is a normal form: two trees share it exactly when they are the same tree up to the
   order of their keys and the spelling of big integers. Array order counts.
   */
  lemma CanonicalIsNormalForm(v: Json, w: Json)
    requires IsTree(v) && IsTree(w)
    ensures Canonicalize(v) == Canonicalize(w) <==> Same(v, w)
  {
    if Same(v, w) {
      SameSorts(v, w);
    }
    if Canonicalize(v) == Canonicalize(w) {
      SortKeysPrintable(v);
      SortKeysPrintable(w);
      PrintInjective(SortKeys(v), SortKeys(w));
      SortsSame(v, w);
    }
  }
}
