/**
  NormalizeTrackedPatches of plugin/src/patch_policy.cpp: recorded one-byte patches become ordered
  ranges. `top` is the largest address of the build, 2^32 - 1 or 2^64 - 1.
 */
module Patches {
  import opened Options

  const MAX_RECORDS: nat := 65536

  datatype PatchByte = PatchByte(module_: string, address: nat, original: nat, patched: nat)

  datatype PatchRange = PatchRange(module_: string, address: nat, original: seq<nat>,
                                   patched: seq<nat>)
  {
    // One past the last address, which the program can only form below `top`.
    function End(): nat {
      address + |patched|
    }
  }

  // ---- Sorting -------------------------------------------------------------------------------

  predicate TextLess(a: string, b: string) {
    b != [] && (a == [] || a[0] < b[0] || (a[0] == b[0] && TextLess(a[1..], b[1..])))
  }

  predicate Before(a: PatchByte, b: PatchByte) {
    if a.address != b.address then a.address < b.address else TextLess(a.module_, b.module_)
  }

  function Insert(x: PatchByte, s: seq<PatchByte>): (r: seq<PatchByte>)
    ensures multiset(r) == multiset(s) + multiset{x}
  {
    if s == [] || Before(x, s[0]) then [x] + s
    else
      assert s == [s[0]] + s[1..];
      [s[0]] + Insert(x, s[1..])
  }

  /** The records by address, then module. */
  function Sorted(s: seq<PatchByte>): (r: seq<PatchByte>)
    ensures multiset(r) == multiset(s)
  {
    if s == [] then []
    else
      assert s == [s[0]] + s[1..];
      Insert(s[0], Sorted(s[1..]))
  }

  predicate Ascending(s: seq<PatchByte>) {
    forall i, j | 0 <= i < j < |s| :: s[i].address <= s[j].address
  }

  predicate StrictlyAscending(s: seq<PatchByte>) {
    forall i, j | 0 <= i < j < |s| :: s[i].address < s[j].address
  }

  predicate DistinctAddresses(s: seq<PatchByte>) {
    forall i, j | 0 <= i < j < |s| :: s[i].address != s[j].address
  }

  lemma {:induction false} InsertAscends(x: PatchByte, s: seq<PatchByte>)
    requires Ascending(s)
    ensures Ascending(Insert(x, s))
  {
    if s != [] && !Before(x, s[0]) {
      InsertAscends(x, s[1..]);
      var r := Insert(x, s[1..]);
      forall y | y in r ensures s[0].address <= y.address {
        assert y in multiset(r);
        assert y == x || y in s[1..];
      }
    }
  }

  lemma {:induction false} SortedAscends(s: seq<PatchByte>)
    ensures Ascending(Sorted(s))
  {
    if s != [] {
      SortedAscends(s[1..]);
      InsertAscends(s[0], Sorted(s[1..]));
    }
  }

  /** How many records are at an address. */
  function Count(s: seq<PatchByte>, address: nat): nat {
    if s == [] then 0 else (if s[0].address == address then 1 else 0) + Count(s[1..], address)
  }

  lemma {:induction false} CountInsert(x: PatchByte, s: seq<PatchByte>, address: nat)
    ensures Count(Insert(x, s), address) == Count([x] + s, address)
  {
    assert ([x] + s)[1..] == s;
    if s != [] && !Before(x, s[0]) {
      CountInsert(x, s[1..], address);
      assert ([s[0]] + Insert(x, s[1..]))[1..] == Insert(x, s[1..]);
      assert ([x] + s[1..])[1..] == s[1..];
    }
  }

  lemma {:induction false} CountSorted(s: seq<PatchByte>, address: nat)
    ensures Count(Sorted(s), address) == Count(s, address)
  {
    if s != [] {
      CountSorted(s[1..], address);
      CountInsert(s[0], Sorted(s[1..]), address);
      assert ([s[0]] + Sorted(s[1..]))[1..] == Sorted(s[1..]);
    }
  }

  lemma {:induction false} CountPositive(s: seq<PatchByte>, i: nat)
    requires i < |s|
    ensures Count(s, s[i].address) >= 1
  {
    if i > 0 {
      CountPositive(s[1..], i - 1);
    }
  }

  lemma {:induction false} CountZero(s: seq<PatchByte>, address: nat)
    requires forall i | 0 <= i < |s| :: s[i].address != address
    ensures Count(s, address) == 0
  {
    if s != [] {
      CountZero(s[1..], address);
    }
  }

  predicate SameCounts(s: seq<PatchByte>, t: seq<PatchByte>, address: nat) {
    Count(s, address) == Count(t, address)
  }

  /** Equally many records at every address: then both lists have distinct addresses or neither. */
  lemma DistinctTogether(s: seq<PatchByte>, t: seq<PatchByte>)
    requires forall a: nat :: SameCounts(s, t, a)
    ensures DistinctAddresses(s) == DistinctAddresses(t)
  {
    hide DistinctAddresses;
    DistinctIffCounted(s);
    DistinctIffCounted(t);
    if DistinctAddresses(s) {
      forall a: nat ensures Count(t, a) <= 1 {
        assert SameCounts(s, t, a) && Count(s, a) <= 1;
      }
    }
    if DistinctAddresses(t) {
      forall a: nat ensures Count(s, a) <= 1 {
        assert SameCounts(s, t, a) && Count(t, a) <= 1;
      }
    }
  }

  lemma {:induction false} DistinctIffCounted(s: seq<PatchByte>)
    ensures DistinctAddresses(s) <==> forall a: nat :: Count(s, a) <= 1
  {
    if s != [] {
      var rest := s[1..];
      DistinctIffCounted(rest);
      if DistinctAddresses(s) {
        forall i | 0 <= i < |rest| ensures rest[i].address != s[0].address {
          assert s[i + 1].address != s[0].address;
        }
        CountZero(rest, s[0].address);
        forall i, j | 0 <= i < j < |rest| ensures rest[i].address != rest[j].address {
          assert s[i + 1].address != s[j + 1].address;
        }
        forall a: nat ensures Count(s, a) <= 1 {
          assert Count(rest, a) <= 1;
        }
      } else {
        var i, j :| 0 <= i < j < |s| && s[i].address == s[j].address;
        if i == 0 {
          CountPositive(rest, j - 1);
          assert Count(s, s[0].address) >= 2;
        } else {
          assert rest[i - 1].address == rest[j - 1].address;
          var a: nat :| Count(rest, a) > 1;
          assert Count(s, a) > 1;
        }
      }
    }
  }

  /** Addresses are distinct in any order exactly when the sorted ones strictly ascend. */
  lemma DistinctIffStrict(s: seq<PatchByte>)
    ensures DistinctAddresses(s) <==> StrictlyAscending(Sorted(s))
  {
    var t := Sorted(s);
    forall a: nat ensures SameCounts(s, t, a) {
      CountSorted(s, a);
    }
    DistinctTogether(s, t);
    SortedAscends(s);
    StrictIffDistinct(t);
  }

  lemma StrictIffDistinct(t: seq<PatchByte>)
    requires Ascending(t)
    ensures StrictlyAscending(t) <==> DistinctAddresses(t)
  {
    if DistinctAddresses(t) {
      forall i, j | 0 <= i < j < |t| ensures t[i].address < t[j].address {
        assert t[i].address <= t[j].address && t[i].address != t[j].address;
      }
    }
  }

  lemma {:induction false} SameBag(s: seq<PatchByte>, t: seq<PatchByte>)
    requires StrictlyAscending(s) && StrictlyAscending(t) && multiset(s) == multiset(t)
    ensures s == t
  {
    hide StrictlyAscending;
    SameMembers(s, t);
    if s != [] {
      assert s[0] in s && t[0] in t;
      SameFirst(s, t);
      HeadAndTail(s);
      HeadAndTail(t);
      assert multiset(s[1..]) == multiset(s) - multiset{s[0]} == multiset(t[1..]);
      TailAscends(s);
      TailAscends(t);
      SameBag(s[1..], t[1..]);
    }
  }

  lemma HeadAndTail(s: seq<PatchByte>)
    requires s != []
    ensures s == [s[0]] + s[1..]
    ensures multiset(s) == multiset{s[0]} + multiset(s[1..])
  {
    assert s == [s[0]] + s[1..];
  }

  lemma TailAscends(s: seq<PatchByte>)
    requires s != [] && StrictlyAscending(s)
    ensures StrictlyAscending(s[1..])
  {
  }

  lemma RemoveAt(s: seq<PatchByte>, i: nat)
    requires i < |s|
    ensures multiset(s[..i] + s[i + 1..]) == multiset(s) - multiset{s[i]}
    ensures s[..0] + s[1..] == s[1..]
  {
    assert s == s[..i] + ([s[i]] + s[i + 1..]);
  }

  lemma SameFirst(s: seq<PatchByte>, t: seq<PatchByte>)
    requires StrictlyAscending(s) && StrictlyAscending(t) && s != [] && t != []
    requires s[0] in t && t[0] in s
    ensures s[0] == t[0]
  {
    var i :| 0 <= i < |t| && t[i] == s[0];
    var j :| 0 <= j < |s| && s[j] == t[0];
    if i > 0 && j > 0 {
      assert false;
    }
  }

  lemma SameMembers(a: seq<PatchByte>, b: seq<PatchByte>)
    requires multiset(a) == multiset(b)
    ensures forall r :: r in a <==> r in b
    ensures |a| == |b|
  {
    forall r ensures r in a <==> r in b {
      assert r in a <==> r in multiset(a);
      assert r in b <==> r in multiset(b);
    }
    assert |multiset(a)| == |multiset(b)|;
  }

  // ---- Coalescing ----------------------------------------------------------------------------

  predicate Touches(range: PatchRange, record: PatchByte) {
    record.address == range.End() && record.module_ == range.module_
  }

  function Single(r: PatchByte): PatchRange {
    PatchRange(r.module_, r.address, [r.original], [r.patched])
  }

  function Extend(range: PatchRange, r: PatchByte): PatchRange {
    range.(original := range.original + [r.original], patched := range.patched + [r.patched])
  }

  function Add(ranges: seq<PatchRange>, r: PatchByte): seq<PatchRange> {
    if ranges != [] && Touches(ranges[|ranges| - 1], r)
    then ranges[..|ranges| - 1] + [Extend(ranges[|ranges| - 1], r)]
    else ranges + [Single(r)]
  }

  function Coalesced(s: seq<PatchByte>): seq<PatchRange> {
    if s == [] then [] else Add(Coalesced(s[..|s| - 1]), s[|s| - 1])
  }

  predicate PatchesSomething(r: PatchByte) {
    r.module_ != "" && r.original != r.patched
  }

  predicate Normalizable(records: seq<PatchByte>) {
    |records| <= MAX_RECORDS && (forall r | r in records :: PatchesSomething(r)) &&
    DistinctAddresses(records)
  }

  /** What is asked of the records: not too many, real patches, and no address twice. */
  lemma NormalizableExactly(records: seq<PatchByte>)
    ensures Normalizable(records) <==>
            && |records| <= 65_536
            && (forall i | 0 <= i < |records| ::
                  records[i].module_ != "" && records[i].original != records[i].patched)
            && (forall i, j | 0 <= i < j < |records| :: records[i].address != records[j].address)
  {
    assert forall i | 0 <= i < |records| :: records[i] in records;
  }

  method NormalizeTrackedPatches(records: seq<PatchByte>, top: nat)
    returns (result: Option<seq<PatchRange>>)
    requires forall r | r in records :: r.address <= top
    ensures result == if Normalizable(records) then Some(Coalesced(Sorted(records))) else None
  {
    hide Coalesced, Sorted, Canonical, Flattened, Add, StrictlyAscending, Ascending, Normalizable;
    NormalizableWhenSorted(records);
    if |records| > MAX_RECORDS {
      return None;
    }
    var sorted := Sorted(records);
    SortedAscends(records);
    SameMembers(records, sorted);
    var ranges: seq<PatchRange> := [];
    NoRecords();
    assert sorted[..0] == [];
    for i := 0 to |sorted|
      invariant ranges == Coalesced(sorted[..i])
      invariant StrictlyAscending(sorted[..i])
      invariant forall k | 0 <= k < i :: PatchesSomething(sorted[k])
    {
      var record := sorted[i];
      assert record in records;
      NormalizeStep(sorted, i, ranges);
      if record.module_ == "" || record.original == record.patched {
        return None;
      }
      // The end of the last range is only computed where it does not wrap around.
      var canExtend := ranges != [] &&
                       |ranges[|ranges| - 1].patched| <= top - ranges[|ranges| - 1].address;
      if canExtend && record.address == ranges[|ranges| - 1].End() &&
         record.module_ == ranges[|ranges| - 1].module_ {
        var back := ranges[|ranges| - 1];
        ranges := ranges[..|ranges| - 1] + [Extend(back, record)];
        continue;
      }
      if ranges != [] && (!canExtend || record.address < ranges[|ranges| - 1].End()) {
        return None;
      }
      ranges := ranges + [Single(record)];
    }
    assert sorted[..|sorted|] == sorted;
    return Some(ranges);
  }

  lemma NoRecords()
    ensures Coalesced([]) == [] && StrictlyAscending([])
  {
  }

  // One turn of the loop: what the next record does to the last range, and when it is a duplicate.
  lemma NormalizeStep(sorted: seq<PatchByte>, i: nat, ranges: seq<PatchRange>)
    requires i < |sorted| && Ascending(sorted) && StrictlyAscending(sorted[..i])
    requires ranges == Coalesced(sorted[..i])
    ensures var record := sorted[i];
            && (ranges != [] ==>
                  var end := ranges[|ranges| - 1].End();
                  (StrictlyAscending(sorted[..i + 1]) <==> end <= record.address) &&
                  record.address + 1 >= end)
            && (ranges == [] ==> StrictlyAscending(sorted[..i + 1]))
            && (!StrictlyAscending(sorted[..i + 1]) ==> !StrictlyAscending(sorted))
            && Coalesced(sorted[..i + 1]) ==
               if ranges != [] && record.address == ranges[|ranges| - 1].End() &&
                  record.module_ == ranges[|ranges| - 1].module_
               then ranges[..|ranges| - 1] + [Extend(ranges[|ranges| - 1], record)]
               else ranges + [Single(record)]
  {
    hide Coalesced, Canonical, Flattened, Add;
    CoalescedEnds(sorted[..i]);
    CoalescedGrows(sorted, i);
    AddExtends(ranges, sorted[i]);
    if i > 0 {
      assert sorted[..i][i - 1] == sorted[i - 1];
      if sorted[i - 1].address < sorted[i].address {
        StrictlyGrows(sorted, i);
      } else {
        assert sorted[..i + 1][i - 1] == sorted[i - 1] && sorted[..i + 1][i] == sorted[i];
      }
    }
  }

  lemma NormalizableWhenSorted(records: seq<PatchByte>)
    ensures var sorted := Sorted(records);
            Normalizable(records) <==>
            |records| <= MAX_RECORDS && StrictlyAscending(sorted) &&
            forall k | 0 <= k < |sorted| :: PatchesSomething(sorted[k])
  {
    hide Sorted, Insert;
    DistinctIffStrict(records);
    SameMembers(records, Sorted(records));
  }

  lemma StrictlyGrows(s: seq<PatchByte>, i: nat)
    requires i < |s| && StrictlyAscending(s[..i])
    requires i > 0 ==> s[i - 1].address < s[i].address
    ensures StrictlyAscending(s[..i + 1])
  {
    forall j, k | 0 <= j < k < i + 1 ensures s[j].address < s[k].address {
      if k < i {
        assert s[..i][j].address < s[..i][k].address;
      } else if j < i - 1 {
        assert s[..i][j].address < s[..i][i - 1].address;
      }
    }
  }

  lemma CoalescedGrows(s: seq<PatchByte>, i: nat)
    requires i < |s|
    ensures Coalesced(s[..i + 1]) == Add(Coalesced(s[..i]), s[i])
  {
    hide Add;
    assert s[..i + 1][..i] == s[..i];
  }

  lemma AddExtends(ranges: seq<PatchRange>, r: PatchByte)
    ensures Add(ranges, r) ==
            if ranges != [] && r.address == ranges[|ranges| - 1].End() &&
               r.module_ == ranges[|ranges| - 1].module_
            then ranges[..|ranges| - 1] + [Extend(ranges[|ranges| - 1], r)]
            else ranges + [Single(r)]
  {
  }

  // ---- What the ranges are -------------------------------------------------------------------

  function Bytes(range: PatchRange): seq<PatchByte>
    requires WellFormed(range)
  {
    seq(|range.patched|, k requires 0 <= k < |range.patched| =>
      PatchByte(range.module_, range.address + k, range.original[k], range.patched[k]))
  }

  predicate WellFormed(range: PatchRange) {
    0 < |range.original| == |range.patched|
  }

  /** The single bytes that the ranges stand for. */
  function Flattened(ranges: seq<PatchRange>): seq<PatchByte>
    requires forall i | 0 <= i < |ranges| :: WellFormed(ranges[i])
  {
    if ranges == [] then []
    else
      Flattened(ranges[..|ranges| - 1]) + Bytes(ranges[|ranges| - 1])
  }

  /** Ordered, disjoint, and no two neighbours that could be one range. */
  predicate Canonical(ranges: seq<PatchRange>) {
    && (forall i | 0 <= i < |ranges| :: WellFormed(ranges[i]))
    && (forall i | 0 < i < |ranges| ::
          ranges[i - 1].End() <= ranges[i].address &&
          (ranges[i - 1].End() == ranges[i].address ==> ranges[i - 1].module_ != ranges[i].module_))
  }

  lemma {:induction false} CoalescedEnds(s: seq<PatchByte>)
    requires StrictlyAscending(s)
    ensures Canonical(Coalesced(s)) && Flattened(Coalesced(s)) == s
    ensures Coalesced(s) == [] <==> s == []
    ensures s != [] ==>
              Coalesced(s)[|Coalesced(s)| - 1].End() == s[|s| - 1].address + 1
  {
    hide Add;
    if s != [] {
      var before, r := s[..|s| - 1], s[|s| - 1];
      CoalescedEnds(before);
      assert before != [] ==> before[|before| - 1] == s[|s| - 2];
      AddKeeps(Coalesced(before), before, r);
      assert s == before + [r];
    }
  }

  lemma AddKeeps(ranges: seq<PatchRange>, s: seq<PatchByte>, r: PatchByte)
    requires Canonical(ranges) && Flattened(ranges) == s
    requires ranges == [] <==> s == []
    requires ranges != [] ==> ranges[|ranges| - 1].End() <= r.address
    ensures Canonical(Add(ranges, r)) && Flattened(Add(ranges, r)) == s + [r]
    ensures Add(ranges, r) != [] && Add(ranges, r)[|Add(ranges, r)| - 1].End() == r.address + 1
  {
    hide Flattened, Canonical;
    AddIsCanonical(ranges, r);
    if ranges != [] && Touches(ranges[|ranges| - 1], r) {
      var front, back := ranges[..|ranges| - 1], ranges[|ranges| - 1];
      assert Bytes(Extend(back, r)) == Bytes(back) + [r];
      assert ranges == front + [back];
      FlattenedSnoc(front, back);
      FlattenedSnoc(front, Extend(back, r));
    } else {
      assert Bytes(Single(r)) == [r];
      FlattenedSnoc(ranges, Single(r));
    }
  }

  lemma AddIsCanonical(ranges: seq<PatchRange>, r: PatchByte)
    requires Canonical(ranges)
    requires ranges != [] ==> ranges[|ranges| - 1].End() <= r.address
    ensures forall i | 0 <= i < |ranges| :: WellFormed(ranges[i])
    ensures Canonical(Add(ranges, r))
  {
  }

  lemma FlattenedSnoc(ranges: seq<PatchRange>, last: PatchRange)
    requires WellFormed(last) && forall i | 0 <= i < |ranges| :: WellFormed(ranges[i])
    ensures Flattened(ranges + [last]) == Flattened(ranges) + Bytes(last)
  {
    assert (ranges + [last])[..|ranges|] == ranges;
  }

  /**
    The result of a normalizable list: canonical ranges that flatten to a permutation of it, in
    address order.
   */
  lemma NormalForm(records: seq<PatchByte>)
    requires DistinctAddresses(records)
    ensures var ranges := Coalesced(Sorted(records));
            Canonical(ranges) && StrictlyAscending(Flattened(ranges)) &&
            multiset(Flattened(ranges)) == multiset(records)
  {
    DistinctIffStrict(records);
    CoalescedEnds(Sorted(records));
  }

  /** The order in which patches were recorded does not matter. */
  lemma OrderDoesNotMatter(a: seq<PatchByte>, b: seq<PatchByte>)
    requires multiset(a) == multiset(b)
    ensures Normalizable(a) == Normalizable(b)
    ensures Normalizable(a) ==> Coalesced(Sorted(a)) == Coalesced(Sorted(b))
  {
    hide Coalesced, Sorted, DistinctAddresses;
    SameMembers(a, b);
    forall address: nat ensures SameCounts(a, b, address) {
      PermutedCounts(a, b, address);
    }
    DistinctTogether(a, b);
    DistinctIffStrict(a);
    DistinctIffStrict(b);
    if DistinctAddresses(a) {
      SameBag(Sorted(a), Sorted(b));
    }
  }

  lemma {:induction false} PermutedCounts(a: seq<PatchByte>, b: seq<PatchByte>, address: nat)
    requires multiset(a) == multiset(b)
    ensures SameCounts(a, b, address)
  {
    SameMembers(a, b);
    if a != [] {
      assert a[0] in a;
      var i :| 0 <= i < |b| && b[i] == a[0];
      RemoveAt(a, 0);
      RemoveAt(b, i);
      PermutedCounts(a[1..], b[..i] + b[i + 1..], address);
      CountWithout(b, i, address);
    }
  }

  lemma CountWithout(b: seq<PatchByte>, i: nat, address: nat)
    requires i < |b|
    ensures Count(b, address) ==
            Count(b[..i] + b[i + 1..], address) + if b[i].address == address then 1 else 0
  {
    CountConcat(b[..i], b[i + 1..], address);
    CountConcat(b[..i], b[i..], address);
    assert b == b[..i] + b[i..];
  }

  lemma {:induction false} CountConcat(a: seq<PatchByte>, b: seq<PatchByte>, address: nat)
    ensures Count(a + b, address) == Count(a, address) + Count(b, address)
  {
    if a == [] {
      assert a + b == b;
    } else {
      CountConcat(a[1..], b, address);
      assert (a + b)[1..] == a[1..] + b;
    }
  }

  /** There is only one such form: canonical ranges are determined by their bytes. */
  lemma {:induction false} CanonicalIsUnique(ranges: seq<PatchRange>)
    requires Canonical(ranges)
    ensures Coalesced(Flattened(ranges)) == ranges
  {
    hide Add;
    if ranges != [] {
      var front, back := ranges[..|ranges| - 1], ranges[|ranges| - 1];
      CanonicalIsUnique(front);
      GrowsBack(front, Flattened(front), back, |back.patched|);
      assert Cut(back, |back.patched|) == back;
      assert Bytes(back)[..|back.patched|] == Bytes(back);
      assert ranges == front + [back];
    }
  }

  // The first bytes of a range.
  function Cut(range: PatchRange, k: nat): PatchRange
    requires WellFormed(range) && k <= |range.patched|
  {
    range.(original := range.original[..k], patched := range.patched[..k])
  }

  lemma CoalescedSnoc(s: seq<PatchByte>, r: PatchByte)
    ensures Coalesced(s + [r]) == Add(Coalesced(s), r)
  {
    hide Add;
    assert (s + [r])[..|s|] == s;
  }

  lemma {:induction false} GrowsBack(front: seq<PatchRange>, s: seq<PatchByte>, back: PatchRange,
                                     k: nat)
    requires Coalesced(s) == front && WellFormed(back) && 0 < k <= |back.patched|
    requires front != [] ==> !Touches(front[|front| - 1], Bytes(back)[0])
    ensures Coalesced(s + Bytes(back)[..k]) == front + [Cut(back, k)]
  {
    hide Coalesced, Bytes, Cut, Extend, Touches, Single;
    var bytes := Bytes(back);
    CutGrows(back, k);
    assert bytes[..k] == bytes[..k - 1] + [bytes[k - 1]];
    assert s + bytes[..k] == s + bytes[..k - 1] + [bytes[k - 1]];
    CoalescedSnoc(s + bytes[..k - 1], bytes[k - 1]);
    if k == 1 {
      assert s + bytes[..0] == s;
    } else {
      GrowsBack(front, s, back, k - 1);
      var ranges := front + [Cut(back, k - 1)];
      assert ranges[..|ranges| - 1] == front;
    }
  }

  lemma CutGrows(back: PatchRange, k: nat)
    requires WellFormed(back) && 0 < k <= |back.patched|
    ensures |Bytes(back)| == |back.patched|
    ensures k == 1 ==> Cut(back, 1) == Single(Bytes(back)[0])
    ensures k > 1 ==>
              Touches(Cut(back, k - 1), Bytes(back)[k - 1]) &&
              Extend(Cut(back, k - 1), Bytes(back)[k - 1]) == Cut(back, k)
  {}
}
