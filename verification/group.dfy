/**
 * `make_group` of release_notes.py: the registry partitioned into groups keyed by their
 * header, each group created when it receives its first key.
 *
 * The grouping is stated for any injective header function and then used with the
 * script's headers (`GroupLabel`), which are injective.
 */
module Grouping {
  import opened BranchTypes
  import opened Parsing

  /** One entry of the header-keyed dictionary: a header and its keys in arrival order. */
  datatype Group = Group(header: string, keys: seq<string>)

  /** Distinct kinds get distinct headers. */
  ghost predicate Injective(hdr: BranchType -> string) {
    forall t, u :: hdr(t) == hdr(u) ==> t == u
  }

  /** Position of the group with this header, or the number of groups when there is none. */
  function HeaderIndex(gs: seq<Group>, header: string): (m: nat)
    ensures m <= |gs|
    ensures m < |gs| ==> gs[m].header == header
    ensures forall j :: 0 <= j < m ==> gs[j].header != header
  {
    if |gs| == 0 then 0
    else if gs[0].header == header then 0
    else 1 + HeaderIndex(gs[1..], header)
  }

  /** Appending k to the group under header (release_notes.py:170-176); a header not yet
      present starts a new group at the end, as a default dictionary does. */
  function AddKey(gs: seq<Group>, header: string, k: string): seq<Group> {
    var m := HeaderIndex(gs, header);
    if m < |gs| then gs[m := Group(header, gs[m].keys + [k])] else gs + [Group(header, [k])]
  }

  /** The loop of `make_group` with header function hdr: each registry entry in turn, filed
      under the header of its kind. */
  function GroupBy(reg: seq<Entry>, hdr: BranchType -> string): seq<Group> {
    if |reg| == 0 then []
    else
      var e := reg[|reg| - 1];
      AddKey(GroupBy(reg[..|reg| - 1], hdr), hdr(e.kind), e.key)
  }

  /** `make_group`, with the script's headers. */
  function MakeGroup(reg: seq<Entry>): seq<Group> {
    GroupBy(reg, GroupLabel)
  }

  // ---------------------------------------------------------------------------
  // The reference partition
  // ---------------------------------------------------------------------------

  /** The kinds present in the registry, each once, in the order they first appear. */
  function KindsInOrder(reg: seq<Entry>): (ks: seq<BranchType>)
    ensures forall i, j :: 0 <= i < j < |ks| ==> ks[i] != ks[j]
    ensures forall t :: t in ks <==> exists a :: 0 <= a < |reg| && reg[a].kind == t
  {
    if |reg| == 0 then []
    else
      var n := |reg| - 1;
      var ks := KindsInOrder(reg[..n]);
      assert forall a :: 0 <= a < n ==> reg[..n][a] == reg[a];
      if reg[n].kind in ks then ks else ks + [reg[n].kind]
  }

  /** The keys of the entries of kind t, in registry order. */
  function KeysOfKind(reg: seq<Entry>, t: BranchType): (r: seq<string>)
    ensures forall k :: k in r <==> exists a :: 0 <= a < |reg| && reg[a].key == k && reg[a].kind == t
  {
    if |reg| == 0 then []
    else
      var n := |reg| - 1;
      assert forall a :: 0 <= a < n ==> reg[..n][a] == reg[a];
      KeysOfKind(reg[..n], t) + (if reg[n].kind == t then [reg[n].key] else [])
  }

  /** One group per kind present, in first-appearance order, holding that kind's keys. */
  function PartitionByKind(reg: seq<Entry>, hdr: BranchType -> string): (gs: seq<Group>)
    ensures |gs| == |KindsInOrder(reg)|
    ensures forall i :: 0 <= i < |gs| ==>
      gs[i] == Group(hdr(KindsInOrder(reg)[i]), KeysOfKind(reg, KindsInOrder(reg)[i]))
  {
    var ks := KindsInOrder(reg);
    seq(|ks|, i requires 0 <= i < |ks| => Group(hdr(ks[i]), KeysOfKind(reg, ks[i])))
  }

  /** With injective headers the dictionary never merges two kinds: grouping builds exactly
      the partition by kind, each group listing its keys in registry order. */
  lemma {:induction false} GroupByIsPartition(reg: seq<Entry>, hdr: BranchType -> string)
    requires Injective(hdr)
    ensures GroupBy(reg, hdr) == PartitionByKind(reg, hdr)
  {
    if |reg| > 0 {
      var n := |reg| - 1;
      var init, e := reg[..n], reg[n];
      GroupByIsPartition(init, hdr);
      assert reg == init + [e];
      if e.kind in KindsInOrder(init) {
        PartitionSnocOld(init, e, hdr);
      } else {
        PartitionSnocNew(init, e, hdr);
      }
    }
  }

  lemma KeysOfKindSnoc(init: seq<Entry>, e: Entry, t: BranchType)
    ensures KeysOfKind(init + [e], t) == KeysOfKind(init, t) + (if e.kind == t then [e.key] else [])
  {
    assert (init + [e])[..|init|] == init;
  }

  /** Filing an entry of a kind already present appends its key to that kind's group. */
  lemma PartitionSnocOld(init: seq<Entry>, e: Entry, hdr: BranchType -> string)
    requires Injective(hdr)
    requires e.kind in KindsInOrder(init)
    ensures AddKey(PartitionByKind(init, hdr), hdr(e.kind), e.key) == PartitionByKind(init + [e], hdr)
  {
    var reg := init + [e];
    var gs := PartitionByKind(init, hdr);
    var ks := KindsInOrder(init);
    var h := hdr(e.kind);
    assert reg[..|init|] == init;
    assert KindsInOrder(reg) == ks;
    var i :| 0 <= i < |ks| && ks[i] == e.kind;
    forall j | 0 <= j < i
      ensures gs[j].header != h
    {
      assert gs[j].header == hdr(ks[j]);
    }
    assert gs[i].header == h;
    assert HeaderIndex(gs, h) == i;
    var r := PartitionByKind(reg, hdr);
    var added := AddKey(gs, h, e.key);
    forall j | 0 <= j < |ks|
      ensures r[j] == added[j]
    {
      KeysOfKindSnoc(init, e, ks[j]);
    }
  }

  lemma {:induction false} KeysOfKindAbsent(reg: seq<Entry>, t: BranchType)
    requires t !in KindsInOrder(reg)
    ensures KeysOfKind(reg, t) == []
  {
    if |reg| > 0 {
      var n := |reg| - 1;
      assert reg[n] == reg[n];
      if t !in KindsInOrder(reg[..n]) {
        KeysOfKindAbsent(reg[..n], t);
      }
    }
  }

  /** Filing an entry of a new kind creates that kind's group at the end. */
  lemma PartitionSnocNew(init: seq<Entry>, e: Entry, hdr: BranchType -> string)
    requires Injective(hdr)
    requires e.kind !in KindsInOrder(init)
    ensures AddKey(PartitionByKind(init, hdr), hdr(e.kind), e.key) == PartitionByKind(init + [e], hdr)
  {
    var reg := init + [e];
    var gs := PartitionByKind(init, hdr);
    var ks := KindsInOrder(init);
    var h := hdr(e.kind);
    assert reg[..|init|] == init;
    assert KindsInOrder(reg) == ks + [e.kind];
    forall j | 0 <= j < |gs|
      ensures gs[j].header != h
    {
      assert gs[j].header == hdr(ks[j]);
    }
    assert HeaderIndex(gs, h) == |gs|;
    KeysOfKindAbsent(init, e.kind);
    var r := PartitionByKind(reg, hdr);
    var added := AddKey(gs, h, e.key);
    forall j | 0 <= j < |ks|
      ensures r[j] == added[j]
    {
      KeysOfKindSnoc(init, e, ks[j]);
    }
    KeysOfKindSnoc(init, e, e.kind);
    assert r[|ks|] == added[|ks|];
  }

  lemma GroupLabelIsInjective()
    ensures Injective(GroupLabel)
  {
    forall t, u | GroupLabel(t) == GroupLabel(u)
      ensures t == u
    {
      GroupLabelInjective(t, u);
    }
  }

  /** `make_group` builds exactly the partition by kind under the script's headers. */
  lemma MakeGroupIsPartition(reg: seq<Entry>)
    ensures MakeGroup(reg) == PartitionByKind(reg, GroupLabel)
  {
    GroupLabelIsInjective();
    GroupByIsPartition(reg, GroupLabel);
  }

  /** Index of the first entry of kind t, or the registry size when there is none. */
  function FirstOfKind(reg: seq<Entry>, t: BranchType): (f: nat)
    ensures f <= |reg|
    ensures f < |reg| ==> reg[f].kind == t
    ensures forall a :: 0 <= a < f ==> reg[a].kind != t
  {
    if |reg| == 0 then 0
    else
      var n := |reg| - 1;
      var f := FirstOfKind(reg[..n], t);
      assert forall a :: 0 <= a < n ==> reg[..n][a] == reg[a];
      if f < n then f else if reg[n].kind == t then n else |reg|
  }

  /** The kinds ks stand in the order of their first entries in reg. */
  ghost predicate FirstSeenOrdered(reg: seq<Entry>, ks: seq<BranchType>) {
    forall i, j :: 0 <= i < j < |ks| ==> FirstOfKind(reg, ks[i]) < FirstOfKind(reg, ks[j])
  }

  /** Groups appear in the order their kinds first appear in the registry (the dictionary's
      insertion order), not in a fixed order of kinds. */
  lemma {:induction false} KindsInFirstSeenOrder(reg: seq<Entry>)
    ensures FirstSeenOrdered(reg, KindsInOrder(reg))
  {
    if |reg| > 0 {
      var n := |reg| - 1;
      var init := reg[..n];
      KindsInFirstSeenOrder(init);
      var ks := KindsInOrder(init);
      forall i | 0 <= i < |ks|
        ensures FirstOfKind(reg, ks[i]) == FirstOfKind(init, ks[i]) < n
      {
        assert ks[i] in ks;
        var a :| 0 <= a < n && init[a].kind == ks[i];
        assert FirstOfKind(init, ks[i]) <= a;
      }
      if reg[n].kind !in ks {
        var ks' := KindsInOrder(reg);
        assert ks' == ks + [reg[n].kind];
        assert FirstOfKind(init, reg[n].kind) == n;
        assert FirstOfKind(reg, reg[n].kind) == n;
        forall i, j | 0 <= i < j < |ks'|
          ensures FirstOfKind(reg, ks'[i]) < FirstOfKind(reg, ks'[j])
        {
          assert ks'[i] == ks[i];
          if j < |ks| {
            assert ks'[j] == ks[j];
            assert FirstOfKind(init, ks[i]) < FirstOfKind(init, ks[j]);
          }
        }
      } else {
        assert KindsInOrder(reg) == ks;
        forall i, j | 0 <= i < j < |ks|
          ensures FirstOfKind(reg, ks[i]) < FirstOfKind(reg, ks[j])
        {
          assert FirstOfKind(init, ks[i]) < FirstOfKind(init, ks[j]);
        }
      }
    }
  }

  // ---------------------------------------------------------------------------
  // Exactness of the partition
  // ---------------------------------------------------------------------------

  /** All keys of all groups, group after group. */
  function Flatten(gs: seq<Group>): seq<string> {
    if |gs| == 0 then [] else gs[0].keys + Flatten(gs[1..])
  }

  lemma {:induction false} FlattenConcat(a: seq<Group>, b: seq<Group>)
    ensures Flatten(a + b) == Flatten(a) + Flatten(b)
  {
    if |a| > 0 {
      assert (a + b)[1..] == a[1..] + b;
      FlattenConcat(a[1..], b);
    } else {
      assert a + b == b;
    }
  }

  /** Filing one key adds exactly that key to the groups' contents. */
  lemma AddKeyAddsKey(gs: seq<Group>, h: string, k: string)
    ensures multiset(Flatten(AddKey(gs, h, k))) == multiset(Flatten(gs)) + multiset{k}
  {
    var m := HeaderIndex(gs, h);
    if m < |gs| {
      var g := Group(h, gs[m].keys + [k]);
      var before, after := gs[..m], gs[m + 1..];
      assert gs == before + [gs[m]] + after;
      assert gs[m := g] == before + [g] + after;
      FlattenConcat(before + [gs[m]], after);
      FlattenConcat(before, [gs[m]]);
      FlattenConcat(before + [g], after);
      FlattenConcat(before, [g]);
      assert Flatten([g]) == g.keys;
      assert Flatten([gs[m]]) == gs[m].keys;
    } else {
      var g := Group(h, [k]);
      FlattenConcat(gs, [g]);
      assert Flatten([g]) == [k];
    }
  }

  /** Grouping neither loses nor duplicates a key: the groups together hold exactly the
      registry's keys. */
  lemma {:induction false} GroupByKeepsKeys(reg: seq<Entry>, hdr: BranchType -> string)
    ensures multiset(Flatten(GroupBy(reg, hdr))) == multiset(Keys(reg))
  {
    if |reg| > 0 {
      var n := |reg| - 1;
      var init, e := reg[..n], reg[n];
      GroupByKeepsKeys(init, hdr);
      AddKeyAddsKey(GroupBy(init, hdr), hdr(e.kind), e.key);
      assert Keys(reg) == Keys(init) + [e.key];
    }
  }

  /** In a registry with unique keys every key occurs once. */
  lemma {:induction false} UniqueKeysCount(reg: seq<Entry>, k: string)
    requires UniqueKeys(reg)
    ensures multiset(Keys(reg))[k] == (if k in Keys(reg) then 1 else 0)
  {
    if |reg| > 0 {
      var n := |reg| - 1;
      assert UniqueKeys(reg[..n]);
      UniqueKeysCount(reg[..n], k);
      assert Keys(reg) == Keys(reg[..n]) + [reg[n].key];
    }
  }

  /**
   * `make_group` is an exact partition of a registry with unique keys: groups are non-empty
   * with distinct headers, a key is in a group exactly when its entry's kind has that
   * group's header, every entry has its group, and the groups hold each registry key
   * exactly once.
   */
  lemma MakeGroupPartition(reg: seq<Entry>)
    requires UniqueKeys(reg)
    ensures var gs := MakeGroup(reg);
      && (forall m :: 0 <= m < |gs| ==> |gs[m].keys| > 0)
      && (forall i, j :: 0 <= i < j < |gs| ==> gs[i].header != gs[j].header)
      && (forall m, a :: 0 <= m < |gs| && 0 <= a < |reg| ==>
            (reg[a].key in gs[m].keys <==> gs[m].header == GroupLabel(reg[a].kind)))
      && (forall a :: 0 <= a < |reg| ==> exists m :: 0 <= m < |gs| && gs[m].header == GroupLabel(reg[a].kind))
      && (forall k :: multiset(Flatten(gs))[k] == (if k in Keys(reg) then 1 else 0))
  {
    GroupLabelIsInjective();
    GroupByIsPartition(reg, GroupLabel);
    GroupByKeepsKeys(reg, GroupLabel);
    PartitionFacts(reg, GroupLabel);
    forall k
      ensures multiset(Flatten(MakeGroup(reg)))[k] == (if k in Keys(reg) then 1 else 0)
    {
      UniqueKeysCount(reg, k);
    }
  }

  /** The groups hold exactly the registry's keys. */
  lemma MakeGroupKeys(reg: seq<Entry>, k: string)
    requires UniqueKeys(reg)
    ensures k in Flatten(MakeGroup(reg)) <==> k in Keys(reg)
  {
    MakeGroupPartition(reg);
    assert k in Flatten(MakeGroup(reg)) <==> k in multiset(Flatten(MakeGroup(reg)));
  }

  /** Group m holds at least one key. */
  lemma MakeGroupNonEmpty(reg: seq<Entry>, m: nat)
    requires UniqueKeys(reg)
    requires m < |MakeGroup(reg)|
    ensures |MakeGroup(reg)[m].keys| > 0
  {
    MakeGroupPartition(reg);
  }

  /** The shape facts of the partition by kind, for any injective headers. */
  lemma PartitionFacts(reg: seq<Entry>, hdr: BranchType -> string)
    requires UniqueKeys(reg)
    requires Injective(hdr)
    ensures var gs := PartitionByKind(reg, hdr);
      && (forall m :: 0 <= m < |gs| ==> |gs[m].keys| > 0)
      && (forall i, j :: 0 <= i < j < |gs| ==> gs[i].header != gs[j].header)
      && (forall m, a :: 0 <= m < |gs| && 0 <= a < |reg| ==>
            (reg[a].key in gs[m].keys <==> gs[m].header == hdr(reg[a].kind)))
      && (forall a :: 0 <= a < |reg| ==> exists m :: 0 <= m < |gs| && gs[m].header == hdr(reg[a].kind))
  {
    var gs := PartitionByKind(reg, hdr);
    var ks := KindsInOrder(reg);
    forall m | 0 <= m < |gs|
      ensures |gs[m].keys| > 0
    {
      assert ks[m] in ks;
      var a :| 0 <= a < |reg| && reg[a].kind == ks[m];
      assert reg[a].key in KeysOfKind(reg, ks[m]);
    }
    forall m, a | 0 <= m < |gs| && 0 <= a < |reg|
      ensures reg[a].key in gs[m].keys <==> gs[m].header == hdr(reg[a].kind)
    {
      if reg[a].key in gs[m].keys {
        var b :| 0 <= b < |reg| && reg[b].key == reg[a].key && reg[b].kind == ks[m];
        assert b == a;
      }
    }
    forall a | 0 <= a < |reg|
      ensures exists m :: 0 <= m < |gs| && gs[m].header == hdr(reg[a].kind)
    {
      assert reg[a].kind in ks;
      var m :| 0 <= m < |ks| && ks[m] == reg[a].kind;
      assert gs[m].header == hdr(reg[a].kind);
    }
  }
}
