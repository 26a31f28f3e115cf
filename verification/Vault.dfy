/** The browser's list of deployed policies, kept under one storage key. */
module Vault {
  import opened PolicyTypes
  import opened Text

  /** The fields the list is searched, sorted and updated by; details holds the others. */
  datatype Entry = Entry(
    policy: string,
    chainId: int,
    ciphertext: Option<string>,
    handoff: Option<string>,
    deployedAt: int,
    details: string)

  function Key(e: Entry): string {
    ToLower(e.policy)
  }

  function Without(entries: seq<Entry>, key: string): seq<Entry> {
    if entries == [] then []
    else
      var last := entries[|entries| - 1];
      Without(entries[..|entries| - 1], key) + if Key(last) != key then [last] else []
  }

  function Save(entries: seq<Entry>, e: Entry): seq<Entry> {
    Without(entries, Key(e)) + [e]
  }

  function Find(entries: seq<Entry>, key: string): Option<Entry> {
    if entries == [] then None
    else
      var last := entries[|entries| - 1];
      var earlier := Find(entries[..|entries| - 1], key);
      if earlier.Some? then earlier else if Key(last) == key then Some(last) else None
  }

  function GetEntry(entries: seq<Entry>, policy: string): Option<Entry> {
    Find(entries, ToLower(policy))
  }

  function OnChain(entries: seq<Entry>, chainId: int): seq<Entry> {
    if entries == [] then []
    else
      var last := entries[|entries| - 1];
      OnChain(entries[..|entries| - 1], chainId) + if last.chainId == chainId then [last] else []
  }

  function InsertNewestFirst(entries: seq<Entry>, e: Entry): seq<Entry> {
    if entries == [] || entries[|entries| - 1].deployedAt >= e.deployedAt then entries + [e]
    else InsertNewestFirst(entries[..|entries| - 1], e) + [entries[|entries| - 1]]
  }

  /** A stable sort. */
  function NewestFirst(entries: seq<Entry>): seq<Entry> {
    if entries == [] then []
    else InsertNewestFirst(NewestFirst(entries[..|entries| - 1]), entries[|entries| - 1])
  }

  function AllEntries(entries: seq<Entry>, chainId: int): seq<Entry> {
    NewestFirst(OnChain(entries, chainId))
  }

  // --- the list is a map --------------------------------------------------------------------------

  /** What the list means: a map by lower-cased address, the first entry of an address counting. */
  function Map(entries: seq<Entry>): map<string, Entry> {
    if entries == [] then map[]
    else
      var last := entries[|entries| - 1];
      var earlier := Map(entries[..|entries| - 1]);
      if Key(last) in earlier then earlier else earlier[Key(last) := last]
  }

  lemma MapSnoc(entries: seq<Entry>, e: Entry)
    ensures Map(entries + [e]) == if Key(e) in Map(entries) then Map(entries) else Map(entries)[Key(e) := e]
  {
    assert (entries + [e])[..|entries|] == entries;
  }

  lemma {:induction false} MapOfWithout(entries: seq<Entry>, key: string)
    ensures Map(Without(entries, key)) == Map(entries) - {key}
  {
    if entries != [] {
      var last := entries[|entries| - 1];
      var rest := Without(entries[..|entries| - 1], key);
      MapOfWithout(entries[..|entries| - 1], key);
      if Key(last) != key {
        MapSnoc(rest, last);
      } else {
        assert rest + [] == rest;
      }
    }
  }

  /** Saving is the map update, on any list, whatever duplicates a tampered list holds. */
  lemma SaveUpdatesTheMap(entries: seq<Entry>, e: Entry)
    ensures Map(Save(entries, e)) == Map(entries)[Key(e) := e]
  {
    MapOfWithout(entries, Key(e));
    assert Save(entries, e)[..|Save(entries, e)| - 1] == Without(entries, Key(e));
  }

  /** Reading takes the first entry of the address, and dropping leaves the others in their order. */
  lemma {:induction false} FindsTheFirst(entries: seq<Entry>, key: string)
    ensures Find(entries, key).None? <==> forall i | 0 <= i < |entries| :: Key(entries[i]) != key
    ensures Find(entries, key).Some? ==>
              exists i | 0 <= i < |entries| ::
                && entries[i] == Find(entries, key).value && Key(entries[i]) == key
                && forall j | 0 <= j < i :: Key(entries[j]) != key
  {
    if entries != [] {
      FindsTheFirst(entries[..|entries| - 1], key);
    }
  }

  lemma {:induction false} WithoutSplits(a: seq<Entry>, b: seq<Entry>, key: string)
    ensures Without(a + b, key) == Without(a, key) + Without(b, key)
    decreases |b|
  {
    if b == [] {
      assert a + b == a;
    } else {
      var (init, last) := (b[..|b| - 1], b[|b| - 1]);
      WithoutSplits(a, init, key);
      assert (a + b)[..|a + b| - 1] == a + init;
      Joins(Without(a, key), Without(init, key), if Key(last) != key then [last] else []);
    }
  }

  lemma Joins(a: seq<Entry>, b: seq<Entry>, c: seq<Entry>)
    ensures a + b + c == a + (b + c)
  {
  }

  lemma WithoutOne(e: Entry, key: string)
    ensures Without([e], key) == if ToLower(e.policy) == key then [] else [e]
  {
    assert [e][..0] == [];
  }

  lemma {:induction false} FindIsLookup(entries: seq<Entry>, key: string)
    ensures Find(entries, key) == if key in Map(entries) then Some(Map(entries)[key]) else None
  {
    if entries != [] {
      FindIsLookup(entries[..|entries| - 1], key);
    }
  }

  /** What was saved last under an address, in whatever case, is what is read back under it. */
  lemma GetAfterSave(entries: seq<Entry>, e: Entry, policy: string)
    ensures GetEntry(Save(entries, e), policy)
         == if ToLower(policy) == ToLower(e.policy) then Some(e) else GetEntry(entries, policy)
  {
    SaveUpdatesTheMap(entries, e);
    FindIsLookup(Save(entries, e), ToLower(policy));
    FindIsLookup(entries, ToLower(policy));
  }

  lemma {:induction false} WithoutTwice(entries: seq<Entry>, key: string)
    ensures Without(Without(entries, key), key) == Without(entries, key)
    ensures forall e | e in Without(entries, key) :: Key(e) != key
  {
    if entries != [] {
      var rest := Without(entries[..|entries| - 1], key);
      var last := entries[|entries| - 1];
      WithoutTwice(entries[..|entries| - 1], key);
      assert (rest + [last])[..|rest|] == rest;
      assert rest + [] == rest;
    }
  }

  /** A second save of the same policy replaces the first. */
  lemma SaveAgain(entries: seq<Entry>, e: Entry, f: Entry)
    requires Key(e) == Key(f)
    ensures Save(Save(entries, e), f) == Save(entries, f)
  {
    var rest := Without(entries, Key(e));
    WithoutTwice(entries, Key(e));
    assert (rest + [e])[..|rest|] == rest;
    assert rest + [] == rest;
  }

  function SaveAll(entries: seq<Entry>, saves: seq<Entry>): seq<Entry> {
    if saves == [] then entries else Save(SaveAll(entries, saves[..|saves| - 1]), saves[|saves| - 1])
  }

  function UpdateAll(m: map<string, Entry>, saves: seq<Entry>): map<string, Entry> {
    if saves == [] then m
    else
      var last := saves[|saves| - 1];
      UpdateAll(m, saves[..|saves| - 1])[Key(last) := last]
  }

  ghost predicate Distinct(entries: seq<Entry>) {
    forall i, j | 0 <= i < j < |entries| :: Key(entries[i]) != Key(entries[j])
  }

  lemma {:induction false} WithoutKeepsDistinct(entries: seq<Entry>, key: string)
    requires Distinct(entries)
    ensures Distinct(Without(entries, key))
    ensures forall e | e in Without(entries, key) :: e in entries && Key(e) != key
  {
    if entries != [] {
      WithoutKeepsDistinct(entries[..|entries| - 1], key);
    }
  }

  /**
   After any saves the list is the map after the same updates, and from a list with no duplicates it never gains one.
   */
  lemma {:induction false} SavesRefineMap(entries: seq<Entry>, saves: seq<Entry>)
    ensures Map(SaveAll(entries, saves)) == UpdateAll(Map(entries), saves)
    ensures Distinct(entries) ==> Distinct(SaveAll(entries, saves))
  {
    if saves != [] {
      var before := SaveAll(entries, saves[..|saves| - 1]);
      var last := saves[|saves| - 1];
      SavesRefineMap(entries, saves[..|saves| - 1]);
      SaveUpdatesTheMap(before, last);
      if Distinct(entries) {
        WithoutKeepsDistinct(before, Key(last));
      }
    }
  }

  // --- the listing --------------------------------------------------------------------------------

  ghost predicate IsNewestFirst(entries: seq<Entry>) {
    forall i, j | 0 <= i < j < |entries| :: entries[i].deployedAt >= entries[j].deployedAt
  }

  function OfDate(entries: seq<Entry>, at: int): seq<Entry> {
    if entries == [] then []
    else
      var last := entries[|entries| - 1];
      OfDate(entries[..|entries| - 1], at) + if last.deployedAt == at then [last] else []
  }

  lemma OfDateSnoc(entries: seq<Entry>, e: Entry, at: int)
    ensures OfDate(entries + [e], at) == OfDate(entries, at) + if e.deployedAt == at then [e] else []
  {
    assert (entries + [e])[..|entries|] == entries;
  }

  lemma {:induction false} InsertFacts(entries: seq<Entry>, e: Entry)
    requires IsNewestFirst(entries)
    ensures IsNewestFirst(InsertNewestFirst(entries, e))
    ensures forall f | f in InsertNewestFirst(entries, e) :: f in entries || f == e
  {
    if entries != [] && entries[|entries| - 1].deployedAt < e.deployedAt {
      var rest, last := entries[..|entries| - 1], entries[|entries| - 1];
      InsertFacts(rest, e);
      var placed := InsertNewestFirst(rest, e);
      assert forall k | 0 <= k < |rest| :: rest[k] == entries[k] && rest[k].deployedAt >= last.deployedAt;
      forall f | f in placed
        ensures f.deployedAt >= last.deployedAt
      {
        assert f in rest || f == e;
      }
    }
  }

  lemma {:induction false} InsertOfDate(entries: seq<Entry>, e: Entry, at: int)
    ensures OfDate(InsertNewestFirst(entries, e), at) == OfDate(entries, at) + if e.deployedAt == at then [e] else []
  {
    if entries == [] || entries[|entries| - 1].deployedAt >= e.deployedAt {
      OfDateSnoc(entries, e, at);
    } else {
      var rest, last := entries[..|entries| - 1], entries[|entries| - 1];
      InsertOfDate(rest, e, at);
      OfDateSnoc(InsertNewestFirst(rest, e), last, at);
      PassesOver(OfDate(rest, at), last, e, at);
    }
  }

  /** Entries of different moments can be told apart in either order. */
  lemma PassesOver(entries: seq<Entry>, last: Entry, e: Entry, at: int)
    requires last.deployedAt != e.deployedAt
    ensures entries + (if e.deployedAt == at then [e] else []) + (if last.deployedAt == at then [last] else [])
         == entries + (if last.deployedAt == at then [last] else []) + (if e.deployedAt == at then [e] else [])
  {
    assert entries + [] == entries;
    if e.deployedAt == at {
      assert entries + [e] + [] == entries + [] + [e];
    } else if last.deployedAt == at {
      assert entries + [] + [last] == entries + [last] + [];
    }
  }

  lemma {:induction false} NewestFirstFacts(entries: seq<Entry>, at: int)
    ensures IsNewestFirst(NewestFirst(entries))
    ensures OfDate(NewestFirst(entries), at) == OfDate(entries, at)
  {
    if entries != [] {
      var rest, last := entries[..|entries| - 1], entries[|entries| - 1];
      NewestFirstFacts(rest, at);
      InsertFacts(NewestFirst(rest), last);
      InsertOfDate(NewestFirst(rest), last, at);
    }
  }

  /** The listing is newest first; entries of one moment are the stored ones of that chain, in stored order. */
  lemma ListingIsSorted(entries: seq<Entry>, chainId: int, at: int)
    ensures IsNewestFirst(AllEntries(entries, chainId))
    ensures OfDate(AllEntries(entries, chainId), at) == OfDate(OnChain(entries, chainId), at)
  {
    NewestFirstFacts(OnChain(entries, chainId), at);
  }

  lemma {:induction false} Members(entries: seq<Entry>, e: Entry, at: int, chainId: int)
    ensures e in OfDate(entries, at) <==> e in entries && e.deployedAt == at
    ensures e in OnChain(entries, chainId) <==> e in entries && e.chainId == chainId
  {
    if entries != [] {
      Members(entries[..|entries| - 1], e, at, chainId);
    }
  }

  /** The listing of a chain holds exactly the stored entries of that chain. */
  lemma ListingIsComplete(entries: seq<Entry>, chainId: int, e: Entry)
    ensures e in AllEntries(entries, chainId) <==> e in entries && e.chainId == chainId
  {
    ListingIsSorted(entries, chainId, e.deployedAt);
    Members(AllEntries(entries, chainId), e, e.deployedAt, chainId);
    Members(OnChain(entries, chainId), e, e.deployedAt, chainId);
    Members(entries, e, e.deployedAt, chainId);
  }

  /** The storage key. Missing, corrupt and non-array contents read as the empty list. */
  class Storage {
    var stored: Option<seq<Entry>>

    function Contents(): seq<Entry>
      reads this
    {
      if stored.Some? then stored.value else []
    }

    constructor (found: Option<seq<Entry>>)
      ensures stored == found
    {
      stored := found;
    }

    /** Writing can throw, as when the quota is used up. */
    method SaveEntry(entry: Entry, writable: bool) returns (ok: bool)
      modifies this
      ensures ok == writable
      ensures Contents() == if ok then Save(old(Contents()), entry) else old(Contents())
    {
      var wanted := ToLower(entry.policy);
      var kept := Without(Contents(), wanted);
      if writable {
        stored := Some(kept + [entry]);
      }
      ok := writable;
    }
  }
}
