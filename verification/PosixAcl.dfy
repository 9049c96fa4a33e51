/** POSIX access ACLs in the kernel's extended attribute, after adapters/native/posix_acl.py. */
module PosixAcl {
  import opened Texts

  const UNDEFINED_ID: nat := 0xFFFF_FFFF
  const IDS: nat := 0x1_0000_0000
  const VERSION: nat := 2

  datatype Tag = UserObj | User | GroupObj | Group | Mask | Other | Unknown(code: nat)

  datatype Entry = Entry(tag: Tag, perm: nat, id: nat)

  function Code(tag: Tag): nat {
    match tag
    case UserObj => 0x01
    case User => 0x02
    case GroupObj => 0x04
    case Group => 0x08
    case Mask => 0x10
    case Other => 0x20
    case Unknown(code) => code
  }

  function TagOf(code: nat): Tag {
    if code == 0x01 then UserObj
    else if code == 0x02 then User
    else if code == 0x04 then GroupObj
    else if code == 0x08 then Group
    else if code == 0x10 then Mask
    else if code == 0x20 then Other
    else Unknown(code)
  }

  /** The canonical order of the tags; an unknown tag has no place in it. */
  function Order(tag: Tag): nat {
    match tag
    case UserObj => 0
    case User => 1
    case GroupObj => 2
    case Group => 3
    case Mask => 4
    case Other => 5
    case Unknown(_) => 6
  }

  predicate IsNamed(e: Entry) {
    e.tag == User || e.tag == Group
  }

  predicate IsGroupClass(e: Entry) {
    IsNamed(e) || e.tag == GroupObj
  }

  // ----- permission bits

  function Or(a: nat, b: nat): nat {
    if a == 0 && b == 0 then 0 else (if a % 2 == 1 || b % 2 == 1 then 1 else 0) + 2 * Or(a / 2, b / 2)
  }

  predicate Bit(a: nat, i: nat)
    decreases i
  {
    if i == 0 then a % 2 == 1 else Bit(a / 2, i - 1)
  }

  lemma {:induction false} OrBit(a: nat, b: nat, i: nat)
    ensures Bit(Or(a, b), i) <==> Bit(a, i) || Bit(b, i)
    decreases i
  {
    var r := Or(a, b);
    assert r % 2 == (if a % 2 == 1 || b % 2 == 1 then 1 else 0) && r / 2 == Or(a / 2, b / 2);
    if i > 0 {
      OrBit(a / 2, b / 2, i - 1);
    }
  }

  lemma {:induction false} SameBits(a: nat, b: nat)
    requires forall i: nat :: Bit(a, i) <==> Bit(b, i)
    ensures a == b
    decreases a + b
  {
    if a + b > 0 {
      assert Bit(a, 0) <==> Bit(b, 0);
      forall i: nat
        ensures Bit(a / 2, i) <==> Bit(b / 2, i)
      {
        assert Bit(a, i + 1) <==> Bit(b, i + 1);
      }
      SameBits(a / 2, b / 2);
    }
  }

  function Pow2(k: nat): nat {
    if k == 0 then 1 else 2 * Pow2(k - 1)
  }

  lemma {:induction false} Pow2Positive(k: nat)
    ensures Pow2(k) > 0
  {
    if k > 0 {
      Pow2Positive(k - 1);
    }
  }

  lemma {:induction false} OrBelow(a: nat, b: nat, k: nat)
    requires a < Pow2(k) && b < Pow2(k)
    ensures Or(a, b) < Pow2(k)
    decreases k
  {
    if k > 0 {
      OrBelow(a / 2, b / 2, k - 1);
    }
  }

  // ----- the entries of an ACL

  function Filter(entries: seq<Entry>, keep: Entry -> bool): seq<Entry> {
    if entries == [] then []
    else (if keep(entries[0]) then [entries[0]] else []) + Filter(entries[1..], keep)
  }

  predicate SameKey(a: Entry, b: Entry) {
    a.tag == b.tag && a.id == b.id
  }

  predicate DistinctKeys(entries: seq<Entry>) {
    forall i, j :: 0 <= i < j < |entries| ==> !SameKey(entries[i], entries[j])
  }

  lemma {:induction false} FilterMembers(entries: seq<Entry>, keep: Entry -> bool)
    ensures forall e :: e in Filter(entries, keep) <==> e in entries && keep(e)
    ensures DistinctKeys(entries) ==> DistinctKeys(Filter(entries, keep))
  {
    if entries != [] {
      FilterMembers(entries[1..], keep);
      var rest := Filter(entries[1..], keep);
      if DistinctKeys(entries) && keep(entries[0]) {
        var all := [entries[0]] + rest;
        forall i, j | 0 <= i < j < |all|
          ensures !SameKey(all[i], all[j])
        {
          if i == 0 {
            assert rest[j - 1] in entries[1..];
          } else {
            assert !SameKey(rest[i - 1], rest[j - 1]);
          }
        }
      }
    }
  }

  predicate EntryOk(e: Entry) {
    && e.perm < 8
    && (if IsNamed(e) then e.id < UNDEFINED_ID else e.id == UNDEFINED_ID)
    && !e.tag.Unknown?
  }

  predicate Has(entries: seq<Entry>, tag: Tag) {
    exists i :: 0 <= i < |entries| && entries[i].tag == tag
  }

  predicate HasNamed(entries: seq<Entry>) {
    exists i :: 0 <= i < |entries| && IsNamed(entries[i])
  }

  /** A valid ACL (section 23 of POSIX.1e draft 17; the undefined id names nobody): one entry each for the
      owner, the owning group and others, at most one per named user or group, at most one mask, and a
      mask if anyone is named. */
  predicate Valid(entries: seq<Entry>) {
    && (forall i :: 0 <= i < |entries| ==> EntryOk(entries[i]))
    && DistinctKeys(entries)
    && Has(entries, UserObj) && Has(entries, GroupObj) && Has(entries, Other)
    && (HasNamed(entries) ==> Has(entries, Mask))
  }

  /** `_base_entries`. */
  function BaseEntries(mode: nat): seq<Entry> {
    [Entry(UserObj, mode / 64 % 8, UNDEFINED_ID),
     Entry(GroupObj, mode / 8 % 8, UNDEFINED_ID),
     Entry(Other, mode % 8, UNDEFINED_ID)]
  }

  lemma BaseEntriesAreValid(mode: nat)
    ensures Valid(BaseEntries(mode)) && !HasNamed(BaseEntries(mode)) && !Has(BaseEntries(mode), Mask)
  {
    var base := BaseEntries(mode);
    assert base[0].tag == UserObj && base[1].tag == GroupObj && base[2].tag == Other;
  }

  /** Where the three bits of a base entry stand in a file's mode. */
  predicate HasBitsAt(perm: nat, mode: nat, from: nat) {
    perm < 8 && forall i :: 0 <= i < 3 ==> (Bit(perm, i) <==> Bit(mode, from + i))
  }

  /** The owner's, the owning group's and the others' entries are there and grant what the mode grants them: its
      bits 8 to 6, 5 to 3 and 2 to 0. */
  predicate GrantsTheMode(entries: seq<Entry>, mode: nat) {
    && Has(entries, UserObj) && Has(entries, GroupObj) && Has(entries, Other)
    && forall e :: e in entries ==>
         && (e.tag == UserObj ==> HasBitsAt(e.perm, mode, 6))
         && (e.tag == GroupObj ==> HasBitsAt(e.perm, mode, 3))
         && (e.tag == Other ==> HasBitsAt(e.perm, mode, 0))
  }

  /** `n >> k`. */
  function Shifted(n: nat, k: nat): nat
    decreases k
  {
    if k == 0 then n else Shifted(n / 2, k - 1)
  }

  lemma {:induction false} BitsAbove(n: nat, k: nat, i: nat)
    ensures Bit(Shifted(n, k), i) <==> Bit(n, k + i)
    decreases k
  {
    if k > 0 {
      BitsAbove(n / 2, k - 1, i);
    }
  }

  lemma ShiftedByThree(n: nat)
    ensures Shifted(n, 3) == n / 8
  {
    assert Shifted(n, 3) == Shifted(n / 2, 2) == Shifted(n / 2 / 2, 1) == n / 2 / 2 / 2;
  }

  lemma {:induction false} ShiftedTwice(n: nat, k: nat, m: nat)
    ensures Shifted(Shifted(n, k), m) == Shifted(n, k + m)
    decreases k
  {
    if k > 0 {
      ShiftedTwice(n / 2, k - 1, m);
    }
  }

  lemma LowBitOf(n: nat, low: nat, i: nat)
    requires low % 2 == n % 2
    requires i > 0 ==> (Bit(low / 2, i - 1) <==> Bit(n / 2, i - 1))
    ensures Bit(low, i) <==> Bit(n, i)
  {
  }

  lemma Halved(n: nat, half: nat, bit: nat)
    requires n == 2 * half + bit && bit < 2
    ensures n / 2 == half && n % 2 == bit
  {
  }

  lemma RestOfFour(n: nat, q: nat, r: nat)
    requires n == 4 * q + r && r < 4
    ensures n % 4 == r
  {
  }

  lemma HalfOfFour(n: nat)
    ensures n % 4 % 2 == n % 2 && n % 4 / 2 == n / 2 % 2
  {
    var q, r := n / 4, n % 4;
    Halved(n, 2 * q + r / 2, r % 2);
    Halved(n / 2, q, r / 2);
  }

  lemma HalfOfEight(n: nat)
    ensures n % 8 % 2 == n % 2 && n % 8 / 2 == n / 2 % 4
  {
    var q, r := n / 8, n % 8;
    Halved(n, 4 * q + r / 2, r % 2);
    RestOfFour(n / 2, q, r / 2);
  }

  lemma LowBits(n: nat)
    ensures forall i :: 0 <= i < 3 ==> (Bit(n % 8, i) <==> Bit(n, i))
  {
    hide Bit;
    HalfOfEight(n);
    HalfOfFour(n / 2);
    LowBitOf(n / 2 / 2, n / 2 % 4 / 2, 0);
    LowBitOf(n / 2, n / 2 % 4, 0);
    LowBitOf(n / 2, n / 2 % 4, 1);
    LowBitOf(n, n % 8, 0);
    LowBitOf(n, n % 8, 1);
    LowBitOf(n, n % 8, 2);
  }

  lemma ThreeBitsAt(mode: nat, k: nat)
    ensures HasBitsAt(Shifted(mode, k) % 8, mode, k)
  {
    LowBits(Shifted(mode, k));
    forall i | 0 <= i < 3
      ensures Bit(Shifted(mode, k) % 8, i) <==> Bit(mode, k + i)
    {
      BitsAbove(mode, k, i);
    }
  }

  lemma BaseEntriesGrantTheMode(mode: nat)
    ensures GrantsTheMode(BaseEntries(mode), mode)
  {
    BaseEntriesAreValid(mode);
    ThreeBitsAt(mode, 6);
    ThreeBitsAt(mode, 3);
    ThreeBitsAt(mode, 0);
    ShiftedByThree(mode);
    ShiftedByThree(mode / 8);
    ShiftedTwice(mode, 3, 3);
    hide HasBitsAt;
  }

  // ----- the mask

  predicate IsNotMask(e: Entry) {
    e.tag != Mask
  }

  /** The union of the permissions. */
  function UnionPerm(entries: seq<Entry>): nat {
    if entries == [] then 0 else Or(UnionPerm(entries[..|entries| - 1]), entries[|entries| - 1].perm)
  }

  lemma {:induction false} ZeroHasNoBit(i: nat)
    ensures !Bit(0, i)
    decreases i
  {
    if i > 0 {
      ZeroHasNoBit(i - 1);
    }
  }

  lemma {:induction false} UnionPermBit(entries: seq<Entry>, i: nat)
    ensures Bit(UnionPerm(entries), i) <==> exists e :: e in entries && Bit(e.perm, i)
  {
    if entries == [] {
      ZeroHasNoBit(i);
    } else {
      var init, last := entries[..|entries| - 1], entries[|entries| - 1];
      UnionPermBit(init, i);
      OrBit(UnionPerm(init), last.perm, i);
      assert entries == init + [last];
    }
  }

  lemma {:induction false} UnionPermBelow(entries: seq<Entry>, k: nat)
    requires forall e :: e in entries ==> e.perm < Pow2(k)
    ensures UnionPerm(entries) < Pow2(k)
  {
    if entries == [] {
      assert Pow2(k) > 0 by { Pow2Positive(k); }
    } else {
      var init := entries[..|entries| - 1];
      UnionPermBelow(init, k);
      OrBelow(UnionPerm(init), entries[|entries| - 1].perm, k);
    }
  }

  /** The entries with the mask derived anew; without named entries there is none. */
  function Remasked(entries: seq<Entry>): seq<Entry> {
    var unmasked := Filter(entries, IsNotMask);
    if HasNamed(unmasked)
    then unmasked + [Entry(Mask, UnionPerm(Filter(unmasked, IsGroupClass)), UNDEFINED_ID)]
    else unmasked
  }

  /** `_with_recomputed_mask`. */
  method WithRecomputedMask(entries: seq<Entry>) returns (r: seq<Entry>)
    ensures r == Remasked(entries)
  {
    var unmasked := Filter(entries, IsNotMask);
    if !HasNamed(unmasked) {
      return unmasked;
    }
    var groupClass := Filter(unmasked, IsGroupClass);
    var maskPerm := 0;
    for i := 0 to |groupClass|
      invariant maskPerm == UnionPerm(groupClass[..i])
    {
      assert groupClass[..i + 1][..i] == groupClass[..i];
      maskPerm := Or(maskPerm, groupClass[i].perm);
    }
    assert groupClass[..|groupClass|] == groupClass;
    return unmasked + [Entry(Mask, maskPerm, UNDEFINED_ID)];
  }

  /** The mask limits everybody but the owner and the others (section 23 of POSIX.1e draft 17). */
  predicate IsMasked(tag: Tag) {
    tag == User || tag == GroupObj || tag == Group
  }

  /** The mask `entries` should have: exactly the bits some entry of the group class has. */
  ghost predicate IsMaskOf(mask: Entry, entries: seq<Entry>) {
    && mask.tag == Mask && mask.id == UNDEFINED_ID
    && forall i: nat :: Bit(mask.perm, i) <==> exists e :: e in entries && IsMasked(e.tag) && Bit(e.perm, i)
  }

  lemma NamedByMembers(a: seq<Entry>, b: seq<Entry>)
    ensures (forall e :: IsNotMask(e) ==> (e in a <==> e in b)) ==> (HasNamed(a) <==> HasNamed(b))
  {
    if forall e :: IsNotMask(e) ==> (e in a <==> e in b) {
      if i :| 0 <= i < |a| && IsNamed(a[i]) {
        assert a[i] in b;
      }
      if i :| 0 <= i < |b| && IsNamed(b[i]) {
        assert b[i] in a;
      }
    }
  }

  /** What deriving the mask does to the entries: the others stay, and there is a mask exactly when someone
      is named. */
  lemma RemaskedMembers(entries: seq<Entry>)
    ensures forall e :: IsNotMask(e) ==> (e in Remasked(entries) <==> e in entries)
    ensures HasNamed(Remasked(entries)) <==> HasNamed(entries)
    ensures Has(Remasked(entries), Mask) <==> HasNamed(entries)
    ensures DistinctKeys(entries) ==> DistinctKeys(Remasked(entries))
  {
    var unmasked := Filter(entries, IsNotMask);
    FilterMembers(entries, IsNotMask);
    NamedByMembers(entries, unmasked);
    var r := Remasked(entries);
    NamedByMembers(entries, r);
    forall i | 0 <= i < |unmasked|
      ensures unmasked[i].tag != Mask
    {
      assert unmasked[i] in unmasked;
    }
    if HasNamed(unmasked) {
      assert r[|unmasked|].tag == Mask;
    }
  }

  /** The derived mask covers exactly the group class. */
  lemma RemaskedMask(entries: seq<Entry>)
    ensures forall e :: e in Remasked(entries) && !IsNotMask(e) ==> IsMaskOf(e, entries)
  {
    var unmasked := Filter(entries, IsNotMask);
    FilterMembers(entries, IsNotMask);
    var groupClass := Filter(unmasked, IsGroupClass);
    FilterMembers(unmasked, IsGroupClass);
    var mask := Entry(Mask, UnionPerm(groupClass), UNDEFINED_ID);
    forall i: nat
      ensures Bit(mask.perm, i) <==> exists e :: e in entries && IsMasked(e.tag) && Bit(e.perm, i)
    {
      UnionPermBit(groupClass, i);
      if e :| e in entries && IsMasked(e.tag) && Bit(e.perm, i) {
        assert e in groupClass;
      }
    }
    assert IsMaskOf(mask, entries);
    forall e | e in Remasked(entries) && !IsNotMask(e)
      ensures e == mask
    {
      assert e !in unmasked;
    }
  }

  lemma RemaskedPermsFit(entries: seq<Entry>, k: nat)
    requires forall e :: e in entries ==> e.perm < Pow2(k)
    ensures forall e :: e in Remasked(entries) ==> e.perm < Pow2(k)
  {
    var unmasked := Filter(entries, IsNotMask);
    FilterMembers(entries, IsNotMask);
    var groupClass := Filter(unmasked, IsGroupClass);
    FilterMembers(unmasked, IsGroupClass);
    UnionPermBelow(groupClass, k);
  }

  lemma PowersOfTwo()
    ensures Pow2(3) == 8 && Pow2(16) == 65536
  {
    assert Pow2(4) == 2 * Pow2(3) && Pow2(3) == 2 * Pow2(2) && Pow2(2) == 2 * Pow2(1) && Pow2(1) == 2;
    assert Pow2(8) == 256 by { assert Pow2(6) == 64 by { assert Pow2(5) == 32; } }
    assert Pow2(12) == 4096 by { assert Pow2(10) == 1024 by { assert Pow2(9) == 512; } }
    assert Pow2(14) == 16384;
  }

  // ----- the canonical order

  /** Sorted by tag, then by id. */
  predicate Before(a: Entry, b: Entry) {
    Order(a.tag) < Order(b.tag) || (Order(a.tag) == Order(b.tag) && a.id < b.id)
  }

  function Insert(e: Entry, sorted: seq<Entry>): seq<Entry> {
    if sorted == [] || !Before(sorted[0], e) then [e] + sorted else [sorted[0]] + Insert(e, sorted[1..])
  }

  /** `sorted(entries, key=...)`: stable. */
  function Sorted(entries: seq<Entry>): seq<Entry> {
    if entries == [] then [] else Insert(entries[0], Sorted(entries[1..]))
  }

  ghost predicate IsSorted(entries: seq<Entry>) {
    forall i, j :: 0 <= i < j < |entries| ==> Before(entries[i], entries[j])
  }

  predicate NoUnknown(entries: seq<Entry>) {
    forall i :: 0 <= i < |entries| ==> !entries[i].tag.Unknown?
  }

  lemma KnownByMembers(entries: seq<Entry>)
    ensures NoUnknown(entries) <==> forall e :: e in entries ==> !e.tag.Unknown?
  {
    assert forall i :: 0 <= i < |entries| ==> entries[i] in entries;
  }

  lemma SameOrderSameTag(a: Tag, b: Tag)
    requires !a.Unknown? && !b.Unknown?
    ensures Order(a) == Order(b) <==> a == b
  {
  }

  lemma BeforeAll(e: Entry, sorted: seq<Entry>)
    requires sorted != [] && IsSorted(sorted) && Before(e, sorted[0])
    ensures IsSorted([e] + sorted)
  {
    var r := [e] + sorted;
    forall i, j | 0 <= i < j < |r|
      ensures Before(r[i], r[j])
    {
      if i == 0 {
        assert j > 1 ==> Before(sorted[0], sorted[j - 1]);
      } else {
        assert Before(sorted[i - 1], sorted[j - 1]);
      }
    }
  }

  lemma {:induction false} InsertSorts(e: Entry, sorted: seq<Entry>)
    requires NoUnknown(sorted) && !e.tag.Unknown?
    requires IsSorted(sorted) && forall i :: 0 <= i < |sorted| ==> !SameKey(e, sorted[i])
    ensures IsSorted(Insert(e, sorted))
    ensures forall x :: x in Insert(e, sorted) <==> x == e || x in sorted
  {
    if sorted == [] {
    } else if !Before(sorted[0], e) {
      assert Before(e, sorted[0]) by {
        assert !SameKey(e, sorted[0]);
        SameOrderSameTag(e.tag, sorted[0].tag);
      }
      BeforeAll(e, sorted);
    } else {
      assert forall i :: 0 <= i < |sorted[1..]| ==> sorted[1..][i] == sorted[i + 1];
      InsertSorts(e, sorted[1..]);
      var r := Insert(e, sorted);
      forall i, j | 0 <= i < j < |r|
        ensures Before(r[i], r[j])
      {
        if i == 0 {
          assert r[j] in Insert(e, sorted[1..]);
        } else {
          assert Before(Insert(e, sorted[1..])[i - 1], Insert(e, sorted[1..])[j - 1]);
        }
      }
    }
  }

  lemma {:induction false} InsertPermutes(e: Entry, sorted: seq<Entry>)
    ensures multiset(Insert(e, sorted)) == multiset(sorted) + multiset{e}
  {
    if sorted != [] && Before(sorted[0], e) {
      InsertPermutes(e, sorted[1..]);
      assert sorted == [sorted[0]] + sorted[1..];
    }
  }

  /** Sorting keeps every entry, as often as it stands there. */
  lemma {:induction false} SortedPermutes(entries: seq<Entry>)
    ensures multiset(Sorted(entries)) == multiset(entries)
    ensures forall e :: e in Sorted(entries) <==> e in entries
  {
    if entries != [] {
      SortedPermutes(entries[1..]);
      InsertPermutes(entries[0], Sorted(entries[1..]));
      assert entries == [entries[0]] + entries[1..];
    }
    assert forall e :: e in Sorted(entries) <==> e in multiset(Sorted(entries));
    assert forall e :: e in entries <==> e in multiset(entries);
  }

  /** No entry stands after one it belongs before, entries alike in tag and id included. */
  ghost predicate IsOrdered(entries: seq<Entry>) {
    forall i, j :: 0 <= i < j < |entries| ==> !Before(entries[j], entries[i])
  }

  lemma {:induction false} InsertKeepsOrder(e: Entry, sorted: seq<Entry>)
    requires IsOrdered(sorted)
    ensures IsOrdered(Insert(e, sorted))
  {
    var r := Insert(e, sorted);
    if sorted != [] && Before(sorted[0], e) {
      var rest := sorted[1..];
      assert forall i :: 0 <= i < |rest| ==> rest[i] == sorted[i + 1];
      InsertKeepsOrder(e, rest);
      InsertPermutes(e, rest);
      forall i, j | 0 <= i < j < |r|
        ensures !Before(r[j], r[i])
      {
        if i == 0 {
          assert r[j] in multiset(Insert(e, rest));
          assert r[j] == e || r[j] in rest;
        } else {
          assert !Before(Insert(e, rest)[j - 1], Insert(e, rest)[i - 1]);
        }
      }
    } else {
      forall i, j | 0 <= i < j < |r|
        ensures !Before(r[j], r[i])
      {
        assert r[j] == sorted[j - 1] && (j > 1 ==> !Before(sorted[j - 1], sorted[0]));
      }
    }
  }

  lemma {:induction false} SortedIsOrdered(entries: seq<Entry>)
    ensures IsOrdered(Sorted(entries))
  {
    if entries != [] {
      SortedIsOrdered(entries[1..]);
      InsertKeepsOrder(entries[0], Sorted(entries[1..]));
    }
  }

  /** The entries the order does not tell from `k`. */
  function IsAlike(k: Entry): Entry -> bool {
    (e: Entry) => Order(e.tag) == Order(k.tag) && e.id == k.id
  }

  lemma FilterStep(e: Entry, rest: seq<Entry>, keep: Entry -> bool)
    ensures Filter([e] + rest, keep) == (if keep(e) then [e] else []) + Filter(rest, keep)
  {
    assert ([e] + rest)[1..] == rest;
  }

  lemma {:induction false} InsertIsStable(e: Entry, sorted: seq<Entry>, k: Entry)
    ensures Filter(Insert(e, sorted), IsAlike(k)) == (if IsAlike(k)(e) then [e] else []) + Filter(sorted, IsAlike(k))
    decreases sorted
  {
    if sorted != [] && Before(sorted[0], e) {
      var first, rest := sorted[0], sorted[1..];
      InsertIsStable(e, rest, k);
      FilterStep(first, Insert(e, rest), IsAlike(k));
      FilterStep(first, rest, IsAlike(k));
      assert sorted == [first] + rest;
      assert !(IsAlike(k)(e) && IsAlike(k)(first));
      hide Filter, IsAlike, Before;
    } else {
      FilterStep(e, sorted, IsAlike(k));
    }
  }

  /** Entries the order does not tell apart stay in the order they came in. */
  lemma {:induction false} SortedIsStable(entries: seq<Entry>, k: Entry)
    ensures Filter(Sorted(entries), IsAlike(k)) == Filter(entries, IsAlike(k))
  {
    if entries != [] {
      SortedIsStable(entries[1..], k);
      InsertIsStable(entries[0], Sorted(entries[1..]), k);
      FilterStep(entries[0], entries[1..], IsAlike(k));
      assert entries == [entries[0]] + entries[1..];
      hide Filter, IsAlike, Insert;
    }
  }

  lemma {:induction false} SortedSorts(entries: seq<Entry>)
    requires NoUnknown(entries) && DistinctKeys(entries)
    ensures IsSorted(Sorted(entries)) && NoUnknown(Sorted(entries))
    ensures forall x :: x in Sorted(entries) <==> x in entries
  {
    if entries != [] {
      var rest := entries[1..];
      assert forall i :: 0 <= i < |rest| ==> rest[i] == entries[i + 1];
      SortedSorts(rest);
      forall i | 0 <= i < |Sorted(rest)|
        ensures !SameKey(entries[0], Sorted(rest)[i])
      {
        assert Sorted(rest)[i] in rest;
      }
      InsertSorts(entries[0], Sorted(rest));
      assert entries == [entries[0]] + rest;
      forall i | 0 <= i < |Sorted(entries)|
        ensures !Sorted(entries)[i].tag.Unknown?
      {
        assert Sorted(entries)[i] in entries;
      }
    }
  }

  lemma FirstIsLeast(a: seq<Entry>, b: seq<Entry>)
    requires IsSorted(a) && IsSorted(b) && a != [] && b != []
    requires a[0] in b && b[0] in a
    ensures a[0] == b[0]
  {
    var i :| 0 <= i < |b| && b[i] == a[0];
    var j :| 0 <= j < |a| && a[j] == b[0];
    assert i == 0 || Before(b[0], b[i]);
    assert j == 0 || Before(a[0], a[j]);
  }

  lemma SortedTail(a: seq<Entry>)
    requires IsSorted(a) && a != []
    ensures IsSorted(a[1..])
    ensures a[0] !in a[1..]
  {
    forall i, j | 0 <= i < j < |a[1..]|
      ensures Before(a[1..][i], a[1..][j])
    {
      assert Before(a[i + 1], a[j + 1]);
    }
    forall i | 0 <= i < |a[1..]|
      ensures a[1..][i] != a[0]
    {
      assert Before(a[0], a[i + 1]);
    }
  }

  /** There is only one way to sort a set of entries. */
  lemma {:induction false} SortedIsUnique(a: seq<Entry>, b: seq<Entry>)
    requires IsSorted(a) && IsSorted(b)
    requires forall e :: e in a <==> e in b
    ensures a == b
  {
    assert b != [] ==> b[0] in b;
    if a != [] {
      assert a[0] in b && b != [];
      assert b[0] in a;
      FirstIsLeast(a, b);
      SortedTail(a);
      SortedTail(b);
      forall e
        ensures e in a[1..] <==> e in b[1..]
      {
        assert e in a <==> e == a[0] || e in a[1..];
        assert e in b <==> e == b[0] || e in b[1..];
      }
      SortedIsUnique(a[1..], b[1..]);
      assert a == [a[0]] + a[1..] && b == [b[0]] + b[1..];
    }
  }

  lemma SortedHasDistinctKeys(a: seq<Entry>)
    requires IsSorted(a)
    ensures DistinctKeys(a)
  {
    forall i, j | 0 <= i < j < |a|
      ensures !SameKey(a[i], a[j])
    {
      assert Before(a[i], a[j]);
    }
  }

  // ----- adding and removing an entry

  /** What a caller asks: give a named user or group permissions, or take its entry away. */
  datatype Request = Add(tag: Tag, id: nat, perm: nat) | Remove(tag: Tag, id: nat)

  predicate IsRequest(q: Request) {
    (q.tag == User || q.tag == Group) && (q.Add? ==> q.perm < 8)
  }

  /** The id to be added names somebody and fits four bytes. Nothing is stored to remove an entry. */
  predicate IsStorable(q: Request) {
    q.Add? ==> q.id < UNDEFINED_ID
  }

  function IsNotOf(tag: Tag, id: nat): Entry -> bool {
    (e: Entry) => !(e.tag == tag && e.id == id)
  }

  /** The entries before the mask is derived. */
  function Edited(entries: seq<Entry>, q: Request): seq<Entry> {
    var kept := Filter(entries, IsNotOf(q.tag, q.id));
    match q
    case Add(tag, id, perm) => kept + [Entry(tag, perm, id)]
    case Remove(_, _) => kept
  }

  /** An entry as four bytes can hold its id. */
  function Wrapped(e: Entry): Entry {
    e.(id := e.id % IDS)
  }

  function WrappedAll(entries: seq<Entry>): seq<Entry> {
    seq(|entries|, i requires 0 <= i < |entries| => Wrapped(entries[i]))
  }

  /** The ACL a request leaves, as it reads back. */
  function Result(entries: seq<Entry>, q: Request): seq<Entry> {
    WrappedAll(Sorted(Remasked(Edited(entries, q))))
  }

  lemma EditedMembers(entries: seq<Entry>, q: Request)
    ensures forall e :: e in Edited(entries, q) <==>
      (e in entries && !(e.tag == q.tag && e.id == q.id)) || (q.Add? && e == Entry(q.tag, q.perm, q.id))
    ensures DistinctKeys(entries) ==> DistinctKeys(Edited(entries, q))
  {
    var keep := IsNotOf(q.tag, q.id);
    FilterMembers(entries, keep);
    var kept := Filter(entries, keep);
    forall i | 0 <= i < |kept|
      ensures !(kept[i].tag == q.tag && kept[i].id == q.id)
    {
      assert kept[i] in kept;
    }
  }

  /** All ids fit four bytes: nothing wraps. */
  lemma NothingWraps(entries: seq<Entry>)
    requires forall e :: e in entries ==> e.id < IDS
    ensures WrappedAll(entries) == entries
  {
    forall i | 0 <= i < |entries|
      ensures Wrapped(entries[i]) == entries[i]
    {
      assert entries[i] in entries;
    }
  }

  lemma ValidMembers(entries: seq<Entry>)
    ensures Valid(entries) <==>
      && (forall e :: e in entries ==> EntryOk(e))
      && DistinctKeys(entries)
      && Has(entries, UserObj) && Has(entries, GroupObj) && Has(entries, Other)
      && (HasNamed(entries) ==> Has(entries, Mask))
  {
    if forall e :: e in entries ==> EntryOk(e) {
      assert forall i :: 0 <= i < |entries| ==> entries[i] in entries;
    }
  }

  lemma SameTagsByMembers(a: seq<Entry>, b: seq<Entry>)
    requires forall e :: e in a <==> e in b
    ensures forall tag :: Has(a, tag) <==> Has(b, tag)
    ensures HasNamed(a) <==> HasNamed(b)
  {
    assert forall i :: 0 <= i < |a| ==> a[i] in b;
    assert forall i :: 0 <= i < |b| ==> b[i] in a;
  }

  /** There is a mask exactly when someone is named, and it cuts no permission of the group class and grants
      none beyond it. */
  ghost predicate HasExactMask(entries: seq<Entry>) {
    && (Has(entries, Mask) <==> HasNamed(entries))
    && forall e :: e in entries && e.tag == Mask ==> IsMaskOf(e, entries)
  }

  /** An ACL is normal when it is valid, in canonical order and exactly masked. */
  ghost predicate IsNormal(entries: seq<Entry>) {
    Valid(entries) && IsSorted(entries) && HasExactMask(entries)
  }

  lemma BaseTagsStay(entries: seq<Entry>, derived: seq<Entry>)
    requires forall e :: IsNotMask(e) ==> (e in derived <==> e in entries)
    ensures forall tag :: tag != Mask ==> (Has(entries, tag) <==> Has(derived, tag))
  {
    assert forall i :: 0 <= i < |entries| && IsNotMask(entries[i]) ==> entries[i] in derived;
    assert forall i :: 0 <= i < |derived| && IsNotMask(derived[i]) ==> derived[i] in entries;
  }

  /** Entries with their mask derived, sorted: the same entries but the mask. */
  lemma DerivedSorts(entries: seq<Entry>)
    requires NoUnknown(entries) && DistinctKeys(entries)
    ensures var r := Sorted(Remasked(entries));
      && IsSorted(r) && NoUnknown(r) && DistinctKeys(r)
      && (forall e :: e in r <==> e in Remasked(entries))
      && (forall e :: IsNotMask(e) ==> (e in r <==> e in entries))
      && (forall tag :: tag != Mask ==> (Has(r, tag) <==> Has(entries, tag)))
      && (HasNamed(r) <==> HasNamed(entries)) && (Has(r, Mask) <==> HasNamed(entries))
  {
    var derived := Remasked(entries);
    RemaskedMembers(entries);
    RemaskedMask(entries);
    forall i | 0 <= i < |derived|
      ensures !derived[i].tag.Unknown?
    {
      assert derived[i] in derived && (IsNotMask(derived[i]) ==> derived[i] in entries);
    }
    SortedSorts(derived);
    SameTagsByMembers(derived, Sorted(derived));
    SortedHasDistinctKeys(Sorted(derived));
    BaseTagsStay(entries, derived);
  }

  lemma MaskHasNoId(mask: Entry, entries: seq<Entry>)
    requires IsMaskOf(mask, entries)
    ensures mask.tag == Mask && mask.id == UNDEFINED_ID
  {
  }

  /** A derived mask is a proper entry. */
  lemma DerivedMaskOk(entries: seq<Entry>)
    requires forall e :: e in entries ==> e.perm < 8
    ensures forall e :: e in Remasked(entries) && !IsNotMask(e) ==> EntryOk(e)
  {
    RemaskedMask(entries);
    PowersOfTwo();
    RemaskedPermsFit(entries, 3);
    hide Remasked;
    forall e | e in Remasked(entries) && !IsNotMask(e)
      ensures EntryOk(e)
    {
      MaskHasNoId(e, entries);
    }
  }

  lemma DerivedEntriesOk(entries: seq<Entry>)
    requires (forall e :: e in entries && IsNotMask(e) ==> EntryOk(e)) && (forall e :: e in entries ==> e.perm < 8)
    ensures forall e :: e in Remasked(entries) ==> EntryOk(e)
  {
    RemaskedMembers(entries);
    DerivedMaskOk(entries);
    hide Remasked, EntryOk;
  }

  /** What is derived from valid entries (the mask apart) and sorted is normal. */
  lemma DerivedIsNormal(entries: seq<Entry>)
    requires (forall e :: e in entries && IsNotMask(e) ==> EntryOk(e)) && (forall e :: e in entries ==> e.perm < 8)
    requires DistinctKeys(entries) && Has(entries, UserObj) && Has(entries, GroupObj) && Has(entries, Other)
    ensures IsNormal(Sorted(Remasked(entries)))
    ensures WrappedAll(Sorted(Remasked(entries))) == Sorted(Remasked(entries))
    ensures forall e :: IsNotMask(e) ==> (e in Sorted(Remasked(entries)) <==> e in entries)
  {
    hide Remasked, Sorted;
    var r := Sorted(Remasked(entries));
    forall i | 0 <= i < |entries|
      ensures !entries[i].tag.Unknown?
    {
      assert entries[i] in entries && (IsNotMask(entries[i]) ==> EntryOk(entries[i]));
    }
    DerivedSorts(entries);
    DerivedEntriesOk(entries);
    ValidMembers(r);
    NothingWraps(r);
    RemaskedMask(entries);
    forall e | e in r && e.tag == Mask
      ensures IsMaskOf(e, r)
    {
      assert IsMaskOf(e, entries);
      assert forall x: Entry :: IsMasked(x.tag) ==> (x in r <==> x in entries);
    }
  }

  /** A request whose id can be stored leaves a normal ACL, with exactly the entries asked for. */
  lemma RequestKeepsValid(entries: seq<Entry>, q: Request)
    requires Valid(entries) && IsRequest(q) && IsStorable(q)
    ensures IsNormal(Result(entries, q))
    ensures Result(entries, q) == Sorted(Remasked(Edited(entries, q)))
    ensures forall e :: IsNotMask(e) ==> (e in Result(entries, q) <==>
      (e in entries && !(e.tag == q.tag && e.id == q.id)) || (q.Add? && e == Entry(q.tag, q.perm, q.id)))
  {
    var edited := Edited(entries, q);
    ValidMembers(entries);
    EditedMembers(entries, q);
    forall tag | tag in {UserObj, GroupObj, Other}
      ensures Has(edited, tag)
    {
      var i :| 0 <= i < |entries| && entries[i].tag == tag;
      assert entries[i] in edited;
    }
    DerivedIsNormal(edited);
  }

  // ----- runs of requests, and how they combine

  function AfterRequests(entries: seq<Entry>, qs: seq<Request>): seq<Entry> {
    if qs == [] then entries else Result(AfterRequests(entries, qs[..|qs| - 1]), qs[|qs| - 1])
  }

  /** Every run of requests from a valid ACL keeps it valid; after the first request it is normal. */
  lemma {:induction false} EveryRunKeepsValid(entries: seq<Entry>, qs: seq<Request>)
    requires Valid(entries)
    requires forall i :: 0 <= i < |qs| ==> IsRequest(qs[i]) && IsStorable(qs[i])
    ensures Valid(AfterRequests(entries, qs))
    ensures qs != [] ==> IsNormal(AfterRequests(entries, qs))
  {
    if qs != [] {
      EveryRunKeepsValid(entries, qs[..|qs| - 1]);
      RequestKeepsValid(AfterRequests(entries, qs[..|qs| - 1]), qs[|qs| - 1]);
    }
  }

  lemma MaskIsDetermined(a: seq<Entry>, b: seq<Entry>)
    requires HasExactMask(a) && HasExactMask(b)
    requires forall e :: IsNotMask(e) ==> (e in a <==> e in b)
    ensures forall e :: e in a && !IsNotMask(e) ==> e in b
  {
    forall e | e in a && !IsNotMask(e)
      ensures e in b
    {
      var i :| 0 <= i < |a| && a[i] == e;
      assert Has(a, Mask);
      NamedByMembers(a, b);
      var j :| 0 <= j < |b| && b[j].tag == Mask;
      var m := b[j];
      assert m in b && IsMaskOf(m, b) && IsMaskOf(e, a);
      assert forall x: Entry :: IsMasked(x.tag) ==> (x in a <==> x in b);
      forall k: nat
        ensures Bit(e.perm, k) <==> Bit(m.perm, k)
      {
      }
      SameBits(e.perm, m.perm);
    }
  }

  /** Two normal ACLs with the same entries, masks apart, are the same: the mask follows from the rest. */
  lemma NormalIsDetermined(a: seq<Entry>, b: seq<Entry>)
    requires IsNormal(a) && IsNormal(b)
    requires forall e :: IsNotMask(e) ==> (e in a <==> e in b)
    ensures a == b
  {
    MaskIsDetermined(a, b);
    MaskIsDetermined(b, a);
    SortedIsUnique(a, b);
  }

  /** The last request about a trustee is the one that counts: adding twice is adding once, and removing
      after adding is removing. */
  lemma LastRequestCounts(entries: seq<Entry>, first: Request, second: Request)
    requires Valid(entries) && IsRequest(first) && IsRequest(second)
    requires IsStorable(first) && IsStorable(second)
    requires first.tag == second.tag && first.id == second.id
    ensures Result(Result(entries, first), second) == Result(entries, second)
  {
    RequestKeepsValid(entries, first);
    RequestKeepsValid(entries, second);
    RequestKeepsValid(Result(entries, first), second);
    NormalIsDetermined(Result(Result(entries, first), second), Result(entries, second));
  }

  /** Requests about different trustees can be made in either order. */
  lemma RequestsCommute(entries: seq<Entry>, first: Request, second: Request)
    requires Valid(entries) && IsRequest(first) && IsRequest(second)
    requires IsStorable(first) && IsStorable(second)
    requires first.tag != second.tag || first.id != second.id
    ensures Result(Result(entries, first), second) == Result(Result(entries, second), first)
  {
    RequestKeepsValid(entries, first);
    RequestKeepsValid(entries, second);
    RequestKeepsValid(Result(entries, first), second);
    RequestKeepsValid(Result(entries, second), first);
    NormalIsDetermined(Result(Result(entries, first), second), Result(Result(entries, second), first));
  }

  /** Adding an entry for someone who has none and removing it again leaves the ACL as it was, its mask
      derived anew and in canonical order. */
  lemma AddThenRemoveRestores(entries: seq<Entry>, q: Request, remove: Request)
    requires Valid(entries) && IsRequest(q) && q.Add? && IsStorable(q)
    requires remove == Remove(q.tag, q.id)
    requires forall e :: e in entries ==> !(e.tag == q.tag && e.id == q.id)
    ensures Result(Result(entries, q), remove) == Sorted(Remasked(entries))
  {
    LastRequestCounts(entries, q, remove);
    RequestKeepsValid(entries, remove);
    ValidMembers(entries);
    DerivedIsNormal(entries);
    NormalIsDetermined(Result(entries, remove), Sorted(Remasked(entries)));
  }

  // ----- ids that do not fit

  lemma WrappedIsIn(sorted: seq<Entry>, e: Entry)
    requires e in sorted
    ensures Wrapped(e) in WrappedAll(sorted)
  {
    var i :| 0 <= i < |sorted| && sorted[i] == e;
    assert WrappedAll(sorted)[i] == Wrapped(e);
  }

  lemma NamedIsIn(entries: seq<Entry>, e: Entry)
    requires e in entries && IsNamed(e)
    ensures HasNamed(entries)
  {
    var i :| 0 <= i < |entries| && entries[i] == e;
  }

  /** The entries written, before ids are cut: the old ones and the new one, and a mask. */
  lemma OversizedMembers(entries: seq<Entry>, q: Request)
    requires Valid(entries) && IsRequest(q) && q.Add? && q.id >= IDS
    ensures var sorted := Sorted(Remasked(Edited(entries, q)));
      var new_ := Entry(q.tag, q.perm, q.id);
      && IsSorted(sorted) && Has(sorted, Mask)
      && (forall e :: e in sorted ==> e == new_ || EntryOk(e))
      && (forall e :: IsNotMask(e) ==> (e in sorted <==> e == new_ || e in entries))
  {
    hide Remasked, Sorted, Valid, Edited;
    var edited, new_ := Edited(entries, q), Entry(q.tag, q.perm, q.id);
    ValidMembers(entries);
    EditedMembers(entries, q);
    NamedIsIn(edited, new_);
    KnownByMembers(edited);
    DerivedMaskOk(edited);
    DerivedSorts(edited);
    hide HasNamed, Has, IsSorted, DistinctKeys, NoUnknown;
  }

  lemma TwoWrapAlike(sorted: seq<Entry>, a: Entry, b: Entry)
    requires a in sorted && b in sorted && a != b && SameKey(Wrapped(a), Wrapped(b))
    ensures !DistinctKeys(WrappedAll(sorted))
  {
    var i :| 0 <= i < |sorted| && sorted[i] == a;
    var j :| 0 <= j < |sorted| && sorted[j] == b;
    assert SameKey(WrappedAll(sorted)[i], WrappedAll(sorted)[j]);
    assert SameKey(WrappedAll(sorted)[j], WrappedAll(sorted)[i]);
    assert i < j || j < i;
  }

  lemma SmallIdIsKept(id: nat)
    requires id < IDS
    ensures id % IDS == id
  {
  }

  lemma WrappedEntriesOk(sorted: seq<Entry>, new_: Entry)
    requires IsNamed(new_) && new_.perm < 8 && new_.id % IDS != UNDEFINED_ID
    requires forall e :: e in sorted ==> e == new_ || EntryOk(e)
    ensures forall i :: 0 <= i < |WrappedAll(sorted)| ==> EntryOk(WrappedAll(sorted)[i])
  {
    forall i | 0 <= i < |sorted|
      ensures EntryOk(Wrapped(sorted[i]))
    {
      assert sorted[i] in sorted;
      if sorted[i] == new_ {
        assert new_.id % IDS < IDS;
      } else {
        SmallIdIsKept(sorted[i].id);
      }
    }
  }

  lemma BaseTagsKept(entries: seq<Entry>, sorted: seq<Entry>)
    requires forall e :: IsNotMask(e) && e in entries ==> e in sorted
    ensures forall tag :: tag != Mask && Has(entries, tag) ==> Has(sorted, tag)
  {
    assert forall i :: 0 <= i < |entries| && IsNotMask(entries[i]) ==> entries[i] in sorted;
  }

  lemma WrappedKeepsTags(sorted: seq<Entry>)
    ensures forall tag :: Has(WrappedAll(sorted), tag) <==> Has(sorted, tag)
  {
    assert forall i :: 0 <= i < |sorted| ==> WrappedAll(sorted)[i].tag == sorted[i].tag;
  }

  lemma WrappedKeysDistinct(entries: seq<Entry>, sorted: seq<Entry>, new_: Entry)
    requires IsNamed(new_) && IsSorted(sorted)
    requires forall e :: e in sorted ==> e == new_ || EntryOk(e)
    requires forall e :: IsNotMask(e) ==> (e in sorted <==> e == new_ || e in entries)
    requires forall e :: e in entries ==> !(e.tag == new_.tag && e.id == new_.id % IDS)
    ensures DistinctKeys(WrappedAll(sorted))
  {
    var r := WrappedAll(sorted);
    forall i, j | 0 <= i < j < |r|
      ensures !SameKey(r[i], r[j])
    {
      assert Before(sorted[i], sorted[j]);
      assert sorted[i] in sorted && sorted[j] in sorted;
    }
  }

  lemma WrappedStaysValid(entries: seq<Entry>, sorted: seq<Entry>, new_: Entry)
    requires Valid(entries) && IsNamed(new_) && new_.perm < 8 && new_.id % IDS != UNDEFINED_ID
    requires IsSorted(sorted) && Has(sorted, Mask)
    requires forall e :: e in sorted ==> e == new_ || EntryOk(e)
    requires forall e :: IsNotMask(e) ==> (e in sorted <==> e == new_ || e in entries)
    requires forall e :: e in entries ==> !(e.tag == new_.tag && e.id == new_.id % IDS)
    ensures Valid(WrappedAll(sorted))
  {
    WrappedEntriesOk(sorted, new_);
    WrappedKeysDistinct(entries, sorted, new_);
    BaseTagsKept(entries, sorted);
    WrappedKeepsTags(sorted);
    hide EntryOk, WrappedAll, DistinctKeys, Has, HasNamed, IsSorted;
  }

  /** An id of more than 32 bits is stored cut down to 32. The ACL stays valid exactly when the id it is cut
      down to names somebody and nobody holds it: the entry replaced is looked up by the id before the cut. */
  lemma OversizedIdKeepsValid(entries: seq<Entry>, q: Request)
    requires Valid(entries) && IsRequest(q) && q.Add? && q.id >= IDS
    ensures Valid(Result(entries, q)) <==>
      q.id % IDS != UNDEFINED_ID && forall e :: e in entries ==> !(e.tag == q.tag && e.id == q.id % IDS)
  {
    hide Remasked, Edited, Sorted, Valid;
    var sorted := Sorted(Remasked(Edited(entries, q)));
    OversizedMembers(entries, q);
    var new_ := Entry(q.tag, q.perm, q.id);
    assert new_ in sorted && IsNotMask(new_);
    ValidMembers(WrappedAll(sorted));
    if q.id % IDS == UNDEFINED_ID {
      WrappedIsIn(sorted, new_);
    } else if e :| e in entries && e.tag == q.tag && e.id == q.id % IDS {
      TwoWrapAlike(sorted, e, new_);
    } else {
      WrappedStaysValid(entries, sorted, new_);
    }
  }

  /** The undefined id is stored for a named entry, which no valid ACL has. */
  lemma UndefinedIdIsStored(entries: seq<Entry>, q: Request)
    requires Valid(entries) && IsRequest(q) && q.Add? && q.id == UNDEFINED_ID
    ensures !Valid(Result(entries, q))
  {
    hide Remasked, Edited, Sorted, Valid;
    var edited := Edited(entries, q);
    EditedMembers(entries, q);
    RemaskedMembers(edited);
    SortedPermutes(Remasked(edited));
    var new_ := Entry(q.tag, q.perm, q.id);
    WrappedIsIn(Sorted(Remasked(edited)), new_);
    ValidMembers(Result(entries, q));
  }

  lemma StorableKeepsValid(entries: seq<Entry>, q: Request)
    requires Valid(entries) && IsRequest(q) && IsStorable(q)
    ensures Valid(Result(entries, q))
  {
    hide Result, Valid;
    RequestKeepsValid(entries, q);
  }

  /** Exactly when adding an entry keeps a valid ACL valid, for every id. */
  lemma AddKeepsValid(entries: seq<Entry>, q: Request)
    requires Valid(entries) && IsRequest(q) && q.Add?
    ensures Valid(Result(entries, q)) <==>
      && q.id % IDS != UNDEFINED_ID
      && (q.id >= IDS ==> forall e :: e in entries ==> !(e.tag == q.tag && e.id == q.id % IDS))
  {
    hide Result, Valid;
    if q.id >= IDS {
      OversizedIdKeepsValid(entries, q);
    } else {
      SmallIdIsKept(q.id);
      if q.id == UNDEFINED_ID {
        UndefinedIdIsStored(entries, q);
      } else {
        StorableKeepsValid(entries, q);
      }
    }
  }

  /** The id to be added is not cut to the undefined id, nor to one that somebody else's entry holds already:
      something to check before the request. */
  predicate Accepts(entries: seq<Entry>, q: Request) {
    q.Add? ==>
      && q.id % IDS != UNDEFINED_ID
      && (q.id >= IDS ==> forall e :: e in entries ==> !(e.tag == q.tag && e.id == q.id % IDS))
  }

  /** A request keeps a valid ACL valid exactly when the ACL accepts it. */
  lemma RequestStaysValid(entries: seq<Entry>, q: Request)
    requires Valid(entries) && IsRequest(q)
    ensures Valid(Result(entries, q)) <==> Accepts(entries, q)
  {
    hide Result, Valid;
    if q.Add? {
      AddKeepsValid(entries, q);
    } else {
      StorableKeepsValid(entries, q);
    }
  }

  lemma AfterOneMore(entries: seq<Entry>, qs: seq<Request>, i: nat)
    requires i < |qs|
    ensures AfterRequests(entries, qs[..i + 1]) == Result(AfterRequests(entries, qs[..i]), qs[i])
  {
    hide Result;
    assert qs[..i + 1][..i] == qs[..i];
  }

  lemma {:induction false} AcceptedPrefixIsValid(entries: seq<Entry>, qs: seq<Request>, i: nat)
    requires Valid(entries) && forall j :: 0 <= j < |qs| ==> IsRequest(qs[j])
    requires i <= |qs| && forall j :: 0 <= j < i ==> Accepts(AfterRequests(entries, qs[..j]), qs[j])
    ensures Valid(AfterRequests(entries, qs[..i]))
    decreases i
  {
    hide Valid, Accepts, Result;
    if i > 0 {
      AcceptedPrefixIsValid(entries, qs, i - 1);
      AfterOneMore(entries, qs, i - 1);
      RequestStaysValid(AfterRequests(entries, qs[..i - 1]), qs[i - 1]);
    }
  }

  /** A run of requests with whatever ids keeps a valid ACL valid throughout exactly when each request is
      accepted by the ACL it meets. */
  lemma {:induction false} RunStaysValid(entries: seq<Entry>, qs: seq<Request>)
    requires Valid(entries) && forall i :: 0 <= i < |qs| ==> IsRequest(qs[i])
    ensures (forall i :: 0 <= i <= |qs| ==> Valid(AfterRequests(entries, qs[..i]))) <==>
      forall i :: 0 <= i < |qs| ==> Accepts(AfterRequests(entries, qs[..i]), qs[i])
  {
    hide Valid, Accepts, AfterRequests, Result;
    if forall i :: 0 <= i <= |qs| ==> Valid(AfterRequests(entries, qs[..i])) {
      forall i | 0 <= i < |qs|
        ensures Accepts(AfterRequests(entries, qs[..i]), qs[i])
      {
        AfterOneMore(entries, qs, i);
        RequestStaysValid(AfterRequests(entries, qs[..i]), qs[i]);
      }
    }
    if forall i :: 0 <= i < |qs| ==> Accepts(AfterRequests(entries, qs[..i]), qs[i]) {
      forall i | 0 <= i <= |qs|
        ensures Valid(AfterRequests(entries, qs[..i]))
      {
        AcceptedPrefixIsValid(entries, qs, i);
      }
    }
  }

  /** The request with the id as it is stored. */
  function Cut(q: Request): Request {
    if q.Add? then q.(id := q.id % IDS) else q
  }

  lemma Unwrapped(sorted: seq<Entry>, e: Entry) returns (x: Entry)
    requires e in WrappedAll(sorted)
    ensures x in sorted && Wrapped(x) == e
  {
    var i :| 0 <= i < |sorted| && WrappedAll(sorted)[i] == e;
    x := sorted[i];
  }

  /** The entries written for an accepted id of more than 32 bits, the mask apart. */
  lemma OversizedEntries(entries: seq<Entry>, q: Request)
    requires Valid(entries) && IsRequest(q) && q.Add? && q.id >= IDS
    ensures forall e :: IsNotMask(e) ==>
      (e in Result(entries, q) <==> e == Entry(q.tag, q.perm, q.id % IDS) || e in entries)
  {
    hide Remasked, Edited, Sorted, Valid;
    var sorted, new_ := Sorted(Remasked(Edited(entries, q))), Entry(q.tag, q.perm, q.id);
    OversizedMembers(entries, q);
    ValidMembers(entries);
    forall e | IsNotMask(e)
      ensures e in WrappedAll(sorted) <==> e == Wrapped(new_) || e in entries
    {
      if e in WrappedAll(sorted) {
        var x := Unwrapped(sorted, e);
        if x != new_ {
          SmallIdIsKept(x.id);
        }
      }
      if e == Wrapped(new_) {
        WrappedIsIn(sorted, new_);
      } else if e in entries {
        SmallIdIsKept(e.id);
        WrappedIsIn(sorted, e);
      }
    }
  }

  /** Cutting ids keeps the mask exact. */
  lemma WrappedMaskIsExact(entries: seq<Entry>, sorted: seq<Entry>)
    requires forall e :: IsNotMask(e) ==> (e in sorted <==> e in entries)
    requires forall e :: e in sorted && e.tag == Mask ==> IsMaskOf(e, entries)
    ensures forall e :: e in WrappedAll(sorted) && e.tag == Mask ==> IsMaskOf(e, WrappedAll(sorted))
  {
    var r := WrappedAll(sorted);
    forall e | e in r && e.tag == Mask
      ensures IsMaskOf(e, r)
    {
      var m := Unwrapped(sorted, e);
      assert m == e;
      forall i: nat
        ensures Bit(e.perm, i) <==> exists x :: x in r && IsMasked(x.tag) && Bit(x.perm, i)
      {
        if Bit(e.perm, i) {
          var x :| x in entries && IsMasked(x.tag) && Bit(x.perm, i);
          WrappedIsIn(sorted, x);
          assert Wrapped(x) in r && IsMasked(Wrapped(x).tag);
        }
        if x :| x in r && IsMasked(x.tag) && Bit(x.perm, i) {
          var y := Unwrapped(sorted, x);
          assert y in entries && IsMasked(y.tag);
        }
      }
    }
  }

  lemma OversizedIsExactlyMasked(entries: seq<Entry>, q: Request)
    requires Valid(entries) && IsRequest(q) && q.Add? && q.id >= IDS
    ensures HasExactMask(Result(entries, q))
  {
    hide Remasked, Edited, Sorted, Valid;
    var edited := Edited(entries, q);
    var sorted, new_ := Sorted(Remasked(edited)), Entry(q.tag, q.perm, q.id);
    OversizedMembers(entries, q);
    RemaskedMask(edited);
    RemaskedMembers(edited);
    SortedPermutes(Remasked(edited));
    WrappedMaskIsExact(edited, sorted);
    WrappedKeepsTags(sorted);
    assert new_ in sorted && IsNotMask(new_);
    WrappedIsIn(sorted, new_);
    NamedIsIn(WrappedAll(sorted), Wrapped(new_));
  }

  /** An accepted request acts as the one with the id as it is stored: the same entries, the same mask. */
  lemma CutActsAlike(entries: seq<Entry>, q: Request)
    requires Valid(entries) && IsRequest(q) && Accepts(entries, q)
    ensures IsRequest(Cut(q)) && IsStorable(Cut(q))
    ensures forall e :: e in Result(entries, q) <==> e in Result(entries, Cut(q))
  {
    hide Result, Valid, HasExactMask;
    if q.Add? && q.id >= IDS {
      assert q.id % IDS < UNDEFINED_ID;
      var a, b := Result(entries, q), Result(entries, Cut(q));
      OversizedEntries(entries, q);
      OversizedIsExactlyMasked(entries, q);
      RequestKeepsValid(entries, Cut(q));
      MaskIsDetermined(a, b);
      MaskIsDetermined(b, a);
    } else if q.Add? {
      SmallIdIsKept(q.id);
    }
  }

  function CutAll(qs: seq<Request>): (r: seq<Request>)
    ensures |r| == |qs|
  {
    seq(|qs|, i requires 0 <= i < |qs| => Cut(qs[i]))
  }

  /** Two valid ACLs with the same entries answer a storable request alike. */
  lemma SameEntriesSameResult(a: seq<Entry>, b: seq<Entry>, q: Request)
    requires Valid(a) && Valid(b) && IsRequest(q) && IsStorable(q)
    requires forall e :: e in a <==> e in b
    ensures Result(a, q) == Result(b, q)
  {
    hide Result, Valid;
    RequestKeepsValid(a, q);
    RequestKeepsValid(b, q);
    NormalIsDetermined(Result(a, q), Result(b, q));
  }

  lemma NothingRequested(entries: seq<Entry>)
    ensures AfterRequests(entries, []) == entries
  {
  }

  lemma {:induction false} PrefixActsCut(entries: seq<Entry>, qs: seq<Request>, i: nat)
    requires Valid(entries) && forall j :: 0 <= j < |qs| ==> IsRequest(qs[j])
    requires i <= |qs| && forall j :: 0 <= j < i ==> Accepts(AfterRequests(entries, qs[..j]), qs[j])
    ensures Valid(AfterRequests(entries, CutAll(qs)[..i]))
    ensures forall e :: e in AfterRequests(entries, qs[..i]) <==> e in AfterRequests(entries, CutAll(qs)[..i])
    decreases i
  {
    hide Valid, Accepts, Result, IsRequest, IsStorable, Cut, AfterRequests;
    if i == 0 {
      assert qs[..0] == CutAll(qs)[..0];
      NothingRequested(entries);
    } else {
      PrefixActsCut(entries, qs, i - 1);
      AcceptedPrefixIsValid(entries, qs, i - 1);
      AfterOneMore(entries, qs, i - 1);
      AfterOneMore(entries, CutAll(qs), i - 1);
      var a, b := AfterRequests(entries, qs[..i - 1]), AfterRequests(entries, CutAll(qs)[..i - 1]);
      CutActsAlike(a, qs[i - 1]);
      SameEntriesSameResult(a, b, Cut(qs[i - 1]));
      StorableKeepsValid(b, Cut(qs[i - 1]));
    }
  }

  /** So a run that stays valid leaves the entries that the same run with the ids as they are stored leaves; and
      that one obeys the laws above. */
  lemma RunActsCut(entries: seq<Entry>, qs: seq<Request>)
    requires Valid(entries) && forall i :: 0 <= i < |qs| ==> IsRequest(qs[i])
    requires forall i :: 0 <= i < |qs| ==> Accepts(AfterRequests(entries, qs[..i]), qs[i])
    ensures Valid(AfterRequests(entries, CutAll(qs)))
    ensures forall e :: e in AfterRequests(entries, qs) <==> e in AfterRequests(entries, CutAll(qs))
  {
    PrefixActsCut(entries, qs, |qs|);
    assert qs[..|qs|] == qs && CutAll(qs)[..|qs|] == CutAll(qs);
  }

  /** A second request is accepted after a first that is stored for somebody else, and both act as cut. */
  lemma AcceptedAfterAnother(entries: seq<Entry>, first: Request, second: Request)
    requires Valid(entries) && IsRequest(first) && IsRequest(second)
    requires Accepts(entries, first) && Accepts(entries, second)
    requires first.tag != second.tag || Cut(first).id != Cut(second).id
    ensures Valid(Result(entries, first)) && Accepts(Result(entries, first), second)
    ensures forall e :: e in Result(Result(entries, first), second) <==>
      e in Result(Result(entries, Cut(first)), Cut(second))
  {
    hide Result, Valid;
    RequestStaysValid(entries, first);
    CutActsAlike(entries, first);
    RequestKeepsValid(entries, Cut(first));
    var a, b := Result(entries, first), Result(entries, Cut(first));
    if second.Add? && second.id >= IDS {
      forall e | e in a
        ensures !(e.tag == second.tag && e.id == second.id % IDS)
      {
        assert e in b;
      }
    }
    CutActsAlike(a, second);
    StorableKeepsValid(entries, Cut(first));
    SameEntriesSameResult(a, b, Cut(second));
  }

  /** Requests with whatever ids, accepted and stored for different trustees, can be made in either order: each
      is still accepted after the other, and the same entries are left. */
  lemma AcceptedRequestsCommute(entries: seq<Entry>, first: Request, second: Request)
    requires Valid(entries) && IsRequest(first) && IsRequest(second)
    requires Accepts(entries, first) && Accepts(entries, second)
    requires first.tag != second.tag || Cut(first).id != Cut(second).id
    ensures Accepts(Result(entries, first), second) && Accepts(Result(entries, second), first)
    ensures forall e :: e in Result(Result(entries, first), second) <==> e in Result(Result(entries, second), first)
  {
    hide Result, Valid, Accepts;
    AcceptedAfterAnother(entries, first, second);
    AcceptedAfterAnother(entries, second, first);
    CutActsAlike(entries, first);
    CutActsAlike(entries, second);
    RequestsCommute(entries, Cut(first), Cut(second));
  }

  /** Adding twice is not adding once for an id that is cut: added a second time, it meets its own entry. */
  lemma AddingTwiceStaysValid(entries: seq<Entry>, q: Request)
    requires Valid(entries) && IsRequest(q) && q.Add? && Valid(Result(entries, q))
    ensures Valid(Result(Result(entries, q), q)) <==> q.id < IDS
  {
    hide Result, Valid;
    RequestStaysValid(entries, q);
    RequestStaysValid(Result(entries, q), q);
    if q.id >= IDS {
      OversizedEntries(entries, q);
      assert Entry(q.tag, q.perm, q.id % IDS) in Result(entries, q);
    }
  }

  /** Nor does removing it by the id given take it away. */
  lemma OversizedIsNotRemoved(entries: seq<Entry>, q: Request)
    requires Valid(entries) && IsRequest(q) && q.Add? && q.id >= IDS && Valid(Result(entries, q))
    ensures Entry(q.tag, q.perm, q.id % IDS) in Result(Result(entries, q), Remove(q.tag, q.id))
  {
    hide Result, Valid;
    OversizedEntries(entries, q);
    RequestKeepsValid(Result(entries, q), Remove(q.tag, q.id));
    assert Entry(q.tag, q.perm, q.id % IDS) in Result(entries, q);
  }

  /** User 2^32 + 1000 is added to a file's mode bits once, and breaks the ACL when added again. */
  lemma OversizedAddedTwice()
    ensures var q := Add(User, IDS + 1000, 7);
      var once := Result(BaseEntries(0), q);
      Valid(once) && !Valid(Result(once, q))
  {
    hide Result, Valid;
    var q := Add(User, IDS + 1000, 7);
    BaseEntriesAreValid(0);
    RequestStaysValid(BaseEntries(0), q);
    AddingTwiceStaysValid(BaseEntries(0), q);
  }

  /** An ACL that grants user 1000 something. */
  const GRANTED: seq<Entry> :=
    [Entry(UserObj, 7, UNDEFINED_ID), Entry(User, 5, 1000), Entry(GroupObj, 5, UNDEFINED_ID),
     Entry(Mask, 5, UNDEFINED_ID), Entry(Other, 0, UNDEFINED_ID)]

  lemma GrantedIsValid()
    ensures Valid(GRANTED)
  {
    assert GRANTED[0].tag == UserObj && GRANTED[2].tag == GroupObj && GRANTED[3].tag == Mask && GRANTED[4].tag == Other;
  }

  /** It is broken by a request for user 2^32 + 1000. */
  lemma OversizedIdCanBreak()
    ensures Valid(GRANTED) && !Valid(Result(GRANTED, Add(User, IDS + 1000, 7)))
  {
    hide Result, Valid;
    GrantedIsValid();
    assert GRANTED[1] in GRANTED;
    OversizedIdKeepsValid(GRANTED, Add(User, IDS + 1000, 7));
  }

  /** No request touches an entry of another tag than its own and the mask. */
  lemma ResultKeepsOthers(entries: seq<Entry>, q: Request, e: Entry)
    requires e.tag != q.tag && e.tag != Mask
    ensures e in entries ==> Wrapped(e) in Result(entries, q)
    ensures e in Result(entries, q) ==> exists x :: x in entries && Wrapped(x) == e
  {
    hide Remasked, Edited, Sorted;
    var edited := Edited(entries, q);
    var sorted := Sorted(Remasked(edited));
    EditedMembers(entries, q);
    RemaskedMembers(edited);
    SortedPermutes(Remasked(edited));
    if e in entries {
      assert IsNotMask(e) && e in sorted;
      WrappedIsIn(sorted, e);
    }
    if e in Result(entries, q) {
      var x := Unwrapped(sorted, e);
      assert IsNotMask(x) && x in entries;
    }
  }

  /** What the mode grants stays granted, whatever is requested. */
  lemma RequestKeepsTheMode(entries: seq<Entry>, q: Request, mode: nat)
    requires IsRequest(q) && GrantsTheMode(entries, mode)
    ensures GrantsTheMode(Result(entries, q), mode)
  {
    hide Result, HasBitsAt;
    var r := Result(entries, q);
    forall e | e in r && e.tag in {UserObj, GroupObj, Other}
      ensures exists x :: x in entries && Wrapped(x) == e
    {
      ResultKeepsOthers(entries, q, e);
    }
    forall tag | tag in {UserObj, GroupObj, Other}
      ensures Has(r, tag)
    {
      var i :| 0 <= i < |entries| && entries[i].tag == tag;
      ResultKeepsOthers(entries, q, entries[i]);
      var j :| 0 <= j < |r| && r[j] == Wrapped(entries[i]);
    }
  }

  // ----- the attribute's bytes

  function Byte16(n: nat): (b: seq<Byte>)
    ensures |b| == 2
  {
    [n % 256, n / 256 % 256]
  }

  function Byte32(n: nat): (b: seq<Byte>)
    ensures |b| == 4
  {
    [n % 256, n / 256 % 256, n / 65536 % 256, n / 16777216 % 256]
  }

  function Number16(b: seq<Byte>): nat
    requires |b| == 2
  {
    b[0] as int + 256 * (b[1] as int)
  }

  function Number32(b: seq<Byte>): nat
    requires |b| == 4
  {
    b[0] as int + 256 * (b[1] as int) + 65536 * (b[2] as int) + 16777216 * (b[3] as int)
  }

  lemma RemainderOf(n: nat, q: nat, r: nat)
    requires n == 65536 * q + r && r < 65536
    ensures n % 65536 == r
  {
  }

  /** Little-endian packing and unpacking are inverse on 16 and on 32 bits. */
  lemma Packing16IsInverse(n: nat)
    ensures Number16(Byte16(n)) == n % 65536
  {
    var low, high, rest := n % 256, n / 256 % 256, n / 256 / 256;
    assert n == 256 * (n / 256) + low && n / 256 == 256 * rest + high;
    RemainderOf(n, rest, low + 256 * high);
  }

  lemma RemainderInHalves(n: nat, q: nat, low: nat, rest: nat, middle: nat)
    requires n == 65536 * q + low && low < 65536
    requires q == 65536 * rest + middle && middle < 65536
    ensures n % IDS == low + 65536 * middle
  {
    assert n == IDS * rest + (65536 * middle + low);
  }

  lemma Byte32InHalves(n: nat)
    ensures Number32(Byte32(n)) == Number16(Byte16(n)) + 65536 * Number16(Byte16(n / 65536))
  {
    assert n / 65536 / 256 == n / 16777216;
  }

  lemma Packing32IsInverse(n: nat)
    ensures Number32(Byte32(n)) == n % IDS
  {
    Packing16IsInverse(n);
    Packing16IsInverse(n / 65536);
    Byte32InHalves(n);
    hide Number16, Number32, Byte16, Byte32;
    RemainderInHalves(n, n / 65536, n % 65536, n / 65536 / 65536, n / 65536 % 65536);
  }

  function Pack(e: Entry): (b: seq<Byte>)
    ensures |b| == 8
  {
    Byte16(Code(e.tag)) + Byte16(e.perm) + Byte32(e.id)
  }

  function Unpack(b: seq<Byte>): Entry
    requires |b| == 8
  {
    Entry(TagOf(Number16(b[..2])), Number16(b[2..4]), Number32(b[4..]))
  }

  lemma UnpackUndoesPack(e: Entry)
    requires !e.tag.Unknown? && e.perm < 65536
    ensures Unpack(Pack(e)) == Wrapped(e)
  {
    var b := Pack(e);
    assert b[..2] == Byte16(Code(e.tag)) && b[2..4] == Byte16(e.perm) && b[4..] == Byte32(e.id);
    Packing16IsInverse(Code(e.tag));
    Packing16IsInverse(e.perm);
    Packing32IsInverse(e.id);
  }

  function Body(entries: seq<Entry>): (b: seq<Byte>)
    ensures |b| == 8 * |entries|
  {
    if entries == [] then [] else Body(entries[..|entries| - 1]) + Pack(entries[|entries| - 1])
  }

  /** What `setxattr` is handed: the header and the sorted entries. */
  function Blob(entries: seq<Entry>): seq<Byte> {
    Byte32(VERSION) + Body(Sorted(entries))
  }

  /** The entries a blob reads as; `None` where its end cuts an entry in two, which `struct` refuses. */
  function Parsed(blob: seq<Byte>): Option<seq<Entry>> {
    if |blob| <= 4 then Some([])
    else if (|blob| - 4) % 8 != 0 then None
    else Some(seq((|blob| - 4) / 8, i requires 0 <= i < (|blob| - 4) / 8 => Unpack(blob[4 + 8 * i..][..8])))
  }

  /** `_read_raw`'s loop. */
  method ReadEntries(blob: seq<Byte>) returns (r: Option<seq<Entry>>)
    ensures r == Parsed(blob)
  {
    var entries: seq<Entry> := [];
    var offset := 4;
    while offset < |blob|
      invariant offset == 4 + 8 * |entries|
      invariant entries == [] || offset <= |blob|
      invariant forall i :: 0 <= i < |entries| ==>
        4 + 8 * i + 8 <= |blob| && entries[i] == Unpack(blob[4 + 8 * i..][..8])
    {
      if offset + 8 > |blob| {
        assert (|blob| - 4) % 8 == |blob| - offset;
        return None;
      }
      entries := entries + [Unpack(blob[offset..][..8])];
      offset := offset + 8;
    }
    if |blob| > 4 {
      assert entries == Parsed(blob).value;
    }
    return Some(entries);
  }

  lemma {:induction false} BodyAt(entries: seq<Entry>, i: nat)
    requires i < |entries|
    ensures 8 * i + 8 <= |Body(entries)|
    ensures Body(entries)[8 * i..][..8] == Pack(entries[i])
  {
    var last := |entries| - 1;
    var before := Body(entries[..last]);
    if i == last {
      assert Body(entries)[8 * i..] == Pack(entries[last]);
    } else {
      BodyAt(entries[..last], i);
      assert Body(entries)[8 * i..][..8] == before[8 * i..][..8];
    }
  }

  /** Reading back what was written gives the entries in canonical order, their ids cut to 32 bits, and
      uses the blob up exactly. */
  lemma BlobReadsBack(entries: seq<Entry>)
    requires forall e :: e in Sorted(entries) ==> !e.tag.Unknown? && e.perm < 65536
    ensures Parsed(Blob(entries)) == Some(WrappedAll(Sorted(entries)))
  {
    var sorted, blob := Sorted(entries), Blob(entries);
    assert |blob| == 4 + 8 * |sorted|;
    forall i | 0 <= i < |sorted|
      ensures Unpack(blob[4 + 8 * i..][..8]) == Wrapped(sorted[i])
    {
      BodyAt(sorted, i);
      assert blob[4 + 8 * i..][..8] == Body(sorted)[8 * i..][..8];
      assert sorted[i] in sorted;
      UnpackUndoesPack(sorted[i]);
    }
    hide Unpack, Wrapped, Sorted, Body, Byte32;
    if |sorted| == 0 {
      assert WrappedAll(sorted) == [];
    } else {
      assert (|blob| - 4) / 8 == |sorted| && (|blob| - 4) % 8 == 0;
      assert Parsed(blob).value == WrappedAll(sorted);
    }
  }

  /** The codes are the powers of two in canonical order. */
  lemma CodesFollowTheOrder(tag: Tag)
    requires !tag.Unknown?
    ensures Code(tag) == Pow2(Order(tag))
  {
    assert Pow2(5) == 2 * Pow2(4) && Pow2(4) == 2 * Pow2(3) && Pow2(3) == 2 * Pow2(2) && Pow2(2) == 2 * Pow2(1);
  }

  /** The bytes of an entry: its tag and its permission in two bytes each, its id, as far as it fits, in four, the
      lowest byte of each first. */
  predicate IsLaidOut(bytes: seq<Byte>, e: Entry) {
    && |bytes| == 8
    && bytes[0] as int + 256 * (bytes[1] as int) == Pow2(Order(e.tag))
    && bytes[2] as int + 256 * (bytes[3] as int) == e.perm
    && bytes[4] as int + 256 * (bytes[5] as int) + 65536 * (bytes[6] as int) + 16777216 * (bytes[7] as int) ==
      e.id % IDS
  }

  lemma PackIsLaidOut(e: Entry)
    requires !e.tag.Unknown? && e.perm < 65536
    ensures IsLaidOut(Pack(e), e)
  {
    CodesFollowTheOrder(e.tag);
    Packing16IsInverse(Code(e.tag));
    Packing16IsInverse(e.perm);
    Packing32IsInverse(e.id);
    assert Pack(e)[..2] == Byte16(Code(e.tag)) && Pack(e)[2..4] == Byte16(e.perm) && Pack(e)[4..] == Byte32(e.id);
  }

  /** The attribute is version 2 in four bytes and then its entries, in canonical order. */
  lemma BlobIsLaidOut(entries: seq<Entry>)
    requires forall e :: e in entries ==> !e.tag.Unknown? && e.perm < 65536
    ensures Blob(entries)[..4] == [2, 0, 0, 0] && |Blob(entries)| == 4 + 8 * |Sorted(entries)|
    ensures forall i :: 0 <= i < |Sorted(entries)| ==> IsLaidOut(Blob(entries)[4 + 8 * i..][..8], Sorted(entries)[i])
  {
    var sorted, blob := Sorted(entries), Blob(entries);
    SortedPermutes(entries);
    assert Byte32(VERSION) == [2, 0, 0, 0];
    hide IsLaidOut, Pack, Sorted, Byte32;
    forall i | 0 <= i < |sorted|
      ensures IsLaidOut(blob[4 + 8 * i..][..8], sorted[i])
    {
      BodyAt(sorted, i);
      assert blob[4 + 8 * i..][..8] == Body(sorted)[8 * i..][..8];
      assert sorted[i] in sorted;
      PackIsLaidOut(sorted[i]);
    }
  }

  /** Tags of which entries may stand before one of the tag given: the owner comes first, then named users, the
      owning group, named groups, the mask and last the others. */
  function MayPrecede(tag: Tag): set<Tag> {
    match tag
    case UserObj => {}
    case User => {UserObj, User}
    case GroupObj => {UserObj, User}
    case Group => {UserObj, User, GroupObj, Group}
    case Mask => {UserObj, User, GroupObj, Group}
    case Other => {UserObj, User, GroupObj, Group, Mask}
    case Unknown(_) => {}
  }

  /** A valid ACL is written in that order, named users and named groups by their ids. */
  lemma ValidIsWrittenInOrder(entries: seq<Entry>, i: nat, j: nat)
    requires Valid(entries) && i < j < |Sorted(entries)|
    ensures var a, b := Sorted(entries)[i], Sorted(entries)[j];
      a.tag in MayPrecede(b.tag) && (a.tag == b.tag ==> a.id < b.id)
  {
    hide Sorted;
    SortedSorts(entries);
    var a, b := Sorted(entries)[i], Sorted(entries)[j];
    assert Before(a, b);
    assert a in Sorted(entries) && b in Sorted(entries);
    assert EntryOk(a) && EntryOk(b);
  }

  /** Two valid ACLs with the same entries, in whatever order, are written as the same bytes. */
  lemma SameEntriesSameBytes(a: seq<Entry>, b: seq<Entry>)
    requires Valid(a) && Valid(b)
    requires forall e :: e in a <==> e in b
    ensures Blob(a) == Blob(b)
  {
    SortedSorts(a);
    SortedSorts(b);
    SortedIsUnique(Sorted(a), Sorted(b));
  }

  // ----- the controller

  lemma Number16Fits(b: seq<Byte>)
    requires |b| == 2
    ensures Number16(b) < 65536
  {
  }

  /** A permission read from two bytes fits two bytes. */
  lemma ParsedPermsFit(blob: seq<Byte>)
    ensures Parsed(blob).Some? ==> forall e :: e in Parsed(blob).value ==> e.perm < 65536
  {
    if Parsed(blob).Some? {
      var entries := Parsed(blob).value;
      forall i | 0 <= i < |entries|
        ensures entries[i].perm < 65536
      {
        assert entries[i] == Unpack(blob[4 + 8 * i..][..8]);
        Number16Fits(blob[4 + 8 * i..][..8][2..4]);
      }
    }
  }

  /** An edited ACL can be written exactly when it held no unknown tag: a request takes none away. */
  lemma WritableWhenKnown(entries: seq<Entry>, q: Request)
    requires IsRequest(q) && forall e :: e in entries ==> e.perm < 65536
    ensures var derived := Remasked(Edited(entries, q));
      && (NoUnknown(derived) <==> NoUnknown(entries))
      && (NoUnknown(entries) ==> forall e :: e in Sorted(derived) ==> !e.tag.Unknown? && e.perm < 65536)
  {
    hide Remasked, Sorted, Edited;
    var edited := Edited(entries, q);
    var derived := Remasked(edited);
    EditedMembers(entries, q);
    RemaskedMembers(edited);
    PowersOfTwo();
    RemaskedPermsFit(edited, 16);
    SortedPermutes(derived);
    KnownByMembers(entries);
    KnownByMembers(derived);
    assert forall e: Entry :: e.tag.Unknown? ==> IsNotMask(e) && !(e.tag == q.tag && e.id == q.id);
  }

  datatype Outcome = Done | DenyRefused | BadAttribute

  /** A file's mode and extended ACL, which the controller rewrites. */
  class AclFile {
    var mode: nat
    var xattr: Option<seq<Byte>>

    constructor (mode: nat, xattr: Option<seq<Byte>>)
      ensures this.mode == mode && this.xattr == xattr
    {
      this.mode := mode;
      this.xattr := xattr;
    }

    /** The file's ACL: the attribute's entries, or, without one, those of the mode bits. */
    function Acl(): Option<seq<Entry>>
      reads this
    {
      match xattr
      case None => Some(BaseEntries(mode))
      case Some(blob) => Parsed(blob)
    }

    /** An edit can be written back: the attribute is whole and holds no tag outside the six. */
    predicate CanEdit()
      reads this
    {
      Acl().Some? && NoUnknown(Acl().value)
    }

    /** `_current_acl`. */
    method CurrentAcl() returns (r: Option<seq<Entry>>)
      ensures r == Acl()
      ensures xattr.None? ==> r.Some? && GrantsTheMode(r.value, mode)
    {
      BaseEntriesGrantTheMode(mode);
      match xattr {
        case None => r := Some(BaseEntries(mode));
        case Some(blob) => r := ReadEntries(blob);
      }
    }

    /** The requested edit of the current ACL, written back. */
    method Write(q: Request) returns (r: Outcome)
      requires IsRequest(q)
      modifies this`xattr
      ensures r == if old(CanEdit()) then Done else BadAttribute
      ensures r == BadAttribute ==> xattr == old(xattr)
      ensures r == Done ==> xattr == Some(Blob(Remasked(Edited(old(Acl()).value, q))))
      ensures r == Done ==> Acl() == Some(Result(old(Acl()).value, q))
      ensures r == Done && old(xattr).None? ==> GrantsTheMode(Acl().value, mode)
    {
      hide Parsed, BaseEntries, Blob, Remasked, Edited, NoUnknown, Sorted, GrantsTheMode;
      var current := CurrentAcl();
      if current.None? {
        return BadAttribute;
      }
      AclPermsFit();
      WritableWhenKnown(current.value, q);
      var edited := Edited(current.value, q);
      var entries := WithRecomputedMask(edited);
      if !NoUnknown(entries) {
        return BadAttribute;
      }
      xattr := Some(Blob(entries));
      BlobReadsBack(entries);
      if old(xattr).None? {
        BaseEntriesGrantTheMode(mode);
        RequestKeepsTheMode(current.value, q, mode);
      }
      return Done;
    }

    lemma AclPermsFit()
      ensures Acl().Some? ==> forall e :: e in Acl().value ==> e.perm < 65536
    {
      if xattr.Some? {
        ParsedPermsFit(xattr.value);
      }
    }

    /** `add_ace`: `rights` uses the low three bits. A deny entry is refused: POSIX ACLs only allow. */
    method AddAce(tag: Tag, id: nat, rights: int, deny: bool) returns (r: Outcome)
      requires tag == User || tag == Group
      modifies this`xattr
      ensures r == if deny then DenyRefused else if old(CanEdit()) then Done else BadAttribute
      ensures r != Done ==> xattr == old(xattr)
      ensures r == Done ==> Acl() == Some(Result(old(Acl()).value, Add(tag, id, rights % 8)))
      ensures r == Done && old(xattr).None? ==> GrantsTheMode(Acl().value, mode)
    {
      if deny {
        return DenyRefused;
      }
      r := Write(Add(tag, id, rights % 8));
    }

    /** `remove_ace`: there is no deny entry to remove. */
    method RemoveAce(tag: Tag, id: nat, deny: bool) returns (r: Outcome)
      requires tag == User || tag == Group
      modifies this`xattr
      ensures r == if deny || old(CanEdit()) then Done else BadAttribute
      ensures deny || r != Done ==> xattr == old(xattr)
      ensures !deny && r == Done ==> Acl() == Some(Result(old(Acl()).value, Remove(tag, id)))
      ensures !deny && r == Done && old(xattr).None? ==> GrantsTheMode(Acl().value, mode)
    {
      if deny {
        return Done;
      }
      r := Write(Remove(tag, id));
    }
  }
}
