/** The sorted index the engine keeps for each of its three collections:
    a list of entries kept in ascending `compareTo` order of their keys,
    searched and extended by binary search. One generic model serves the
    student, staff and module indexes alike. */
module SortedIndex {
  import opened Lexicographic
  import opened Failures
  import Lists

  /** An indexed reference together with the identifier it is filed under. */
  datatype Keyed<T> = Keyed(key: string, item: T)

  /** Ascending order, equal keys allowed. */
  predicate Sorted<T>(s: seq<Keyed<T>>) {
    forall i, j :: 0 <= i < j < |s| ==> !Less(s[j].key, s[i].key)
  }

  /** Ascending order without repeated keys: the shape the engine keeps. */
  predicate StrictlySorted<T>(s: seq<Keyed<T>>) {
    forall i, j :: 0 <= i < j < |s| ==> Less(s[i].key, s[j].key)
  }

  predicate HasKey<T>(s: seq<Keyed<T>>, k: string) {
    exists i :: 0 <= i < |s| && s[i].key == k
  }

  /** The references held by the index. */
  function Items<T>(s: seq<Keyed<T>>): set<T> {
    set e | e in s :: e.item
  }

  /** The references filed under `k` (none when `k` is null). */
  function ItemsWithKey<T>(s: seq<Keyed<T>>, k: Option<string>): set<T> {
    set e | e in s && Some(e.key) == k :: e.item
  }

  /** Reference definition of a lookup: the first entry with the key. */
  function Lookup<T>(s: seq<Keyed<T>>, k: string): (r: Option<T>)
    ensures r.Some? ==> Keyed(k, r.value) in s
    ensures r.Some? ==> r.value in Items(s) && r.value in ItemsWithKey(s, Some(k))
    ensures r.None? <==> !HasKey(s, k)
  {
    if s == [] then None
    else if s[0].key == k then Some(s[0].item)
    else
      assert forall i :: 1 <= i < |s| ==> s[i] == s[1..][i - 1];
      Lookup(s[1..], k)
  }

  lemma StrictlySortedIsSorted<T>(s: seq<Keyed<T>>)
    requires StrictlySorted(s)
    ensures Sorted(s)
  {
    forall i, j | 0 <= i < j < |s| ensures !Less(s[j].key, s[i].key) {
      LessAsymmetric(s[i].key, s[j].key);
    }
  }

  /** In a strictly sorted index a key identifies one entry. */
  lemma StrictlySortedKeysUnique<T>(s: seq<Keyed<T>>, i: int, j: int)
    requires StrictlySorted(s) && 0 <= i < |s| && 0 <= j < |s|
    requires s[i].key == s[j].key
    ensures i == j
  {
    if i < j { LessIrreflexive(s[i].key); }
    if j < i { LessIrreflexive(s[j].key); }
  }

  /** In a strictly sorted index Lookup finds the one entry with the key. */
  lemma LookupUnique<T>(s: seq<Keyed<T>>, k: string, x: T)
    requires StrictlySorted(s) && Keyed(k, x) in s
    ensures Lookup(s, k) == Some(x)
  {
    var i :| 0 <= i < |s| && s[i] == Keyed(k, x);
    var y := Lookup(s, k).value;
    var j :| 0 <= j < |s| && s[j] == Keyed(k, y);
    StrictlySortedKeysUnique(s, i, j);
  }

  /** Everything up to an entry below `key` is below `key`. */
  lemma SortedBelow<T>(s: seq<Keyed<T>>, m: int, key: string)
    requires Sorted(s) && 0 <= m < |s| && Less(s[m].key, key)
    ensures forall i :: 0 <= i <= m ==> Less(s[i].key, key)
  {
    forall i | 0 <= i < m ensures Less(s[i].key, key) {
      LessTotal(s[i].key, s[m].key);
      if Less(s[i].key, s[m].key) { LessTransitive(s[i].key, s[m].key, key); }
    }
  }

  /** Everything from an entry above `key` on is above `key`. */
  lemma SortedAbove<T>(s: seq<Keyed<T>>, m: int, key: string)
    requires Sorted(s) && 0 <= m < |s| && Less(key, s[m].key)
    ensures forall i :: m <= i < |s| ==> Less(key, s[i].key)
  {
    forall i | m < i < |s| ensures Less(key, s[i].key) {
      LessTotal(s[i].key, s[m].key);
      if Less(s[m].key, s[i].key) { LessTransitive(key, s[m].key, s[i].key); }
    }
  }

  /** Binary search for `key` (binarySearchStudentID, binarySearchStaffID and
      binarySearchModuleCode in src/UniversityAllocationManager.java): an entry filed under
      `key` when there is one, null otherwise. */
  method Search<T>(items: seq<Keyed<T>>, key: string) returns (r: Option<T>)
    requires Sorted(items)
    ensures r.Some? ==> Keyed(key, r.value) in items
    ensures r.None? ==> !HasKey(items, key)
  {
    var lowerBound := 0;
    var upperBound := |items| - 1;
    while upperBound >= lowerBound
      invariant 0 <= lowerBound <= upperBound + 1 <= |items|
      invariant forall i :: 0 <= i < lowerBound ==> Less(items[i].key, key)
      invariant forall i :: upperBound < i < |items| ==> Less(key, items[i].key)
      decreases upperBound - lowerBound
    {
      var currentIndex := (lowerBound + upperBound) / 2;
      var currentIndexValue := items[currentIndex].key;
      if CompareTo(currentIndexValue, key) == 0 {
        CompareToZero(currentIndexValue, key);
        return Some(items[currentIndex].item);
      }
      if CompareTo(currentIndexValue, key) < 0 {
        SortedBelow(items, currentIndex, key);
        lowerBound := currentIndex + 1;
      }
      if CompareTo(currentIndexValue, key) > 0 {
        CompareToAntisymmetric(currentIndexValue, key);
        SortedAbove(items, currentIndex, key);
        upperBound := currentIndex - 1;
      }
    }
    forall i | 0 <= i < |items| ensures items[i].key != key {
      if i < lowerBound { LessAsymmetric(items[i].key, key); }
      else { LessAsymmetric(key, items[i].key); }
    }
    return None;
  }

  /** Splicing `e` in at a position where everything before is not above
      its key and everything after is not below keeps the index sorted. */
  lemma SpliceSorted<T>(items: seq<Keyed<T>>, e: Keyed<T>, p: nat)
    requires Sorted(items) && p <= |items|
    requires forall i :: 0 <= i < p ==> !Less(e.key, items[i].key)
    requires forall i :: p <= i < |items| ==> !Less(items[i].key, e.key)
    ensures Sorted(items[..p] + [e] + items[p..])
  {
    var r := items[..p] + [e] + items[p..];
    forall i, j | 0 <= i < j < |r| ensures !Less(r[j].key, r[i].key) {
      if j < p {
        assert r[i] == items[i] && r[j] == items[j];
      } else if j == p {
        assert r[i] == items[i] && r[j] == e;
      } else if i == p {
        assert r[i] == e && r[j] == items[j - 1];
      } else if i < p {
        assert r[i] == items[i] && r[j] == items[j - 1];
      } else {
        assert r[i] == items[i - 1] && r[j] == items[j - 1];
      }
    }
  }

  /** With a fresh key, the splice keeps the index strictly sorted. */
  lemma SpliceStrictlySorted<T>(items: seq<Keyed<T>>, e: Keyed<T>, p: nat)
    requires StrictlySorted(items) && p <= |items| && !HasKey(items, e.key)
    requires forall i :: 0 <= i < p ==> !Less(e.key, items[i].key)
    requires forall i :: p <= i < |items| ==> !Less(items[i].key, e.key)
    ensures StrictlySorted(items[..p] + [e] + items[p..])
  {
    var r := items[..p] + [e] + items[p..];
    forall i | 0 <= i < |items| ensures (i < p ==> Less(items[i].key, e.key)) && (p <= i ==> Less(e.key, items[i].key)) {
      LessTotal(items[i].key, e.key);
    }
    forall i, j | 0 <= i < j < |r| ensures Less(r[i].key, r[j].key) {
      if j < p {
        assert r[i] == items[i] && r[j] == items[j];
      } else if j == p {
        assert r[i] == items[i] && r[j] == e;
      } else if i == p {
        assert r[i] == e && r[j] == items[j - 1];
      } else if i < p {
        assert r[i] == items[i] && r[j] == items[j - 1];
        LessTransitive(r[i].key, e.key, r[j].key);
      } else {
        assert r[i] == items[i - 1] && r[j] == items[j - 1];
      }
    }
  }

  /** The bisection phase of binary insertion: the point where `key`
      goes, with nothing above it before that point and nothing below it
      from there on. An entry with the same key stops the search at once. */
  method InsertionPoint<T>(items: seq<Keyed<T>>, key: string) returns (currentIndex: nat)
    requires Sorted(items)
    ensures currentIndex <= |items|
    ensures forall i :: 0 <= i < currentIndex ==> !Less(key, items[i].key)
    ensures forall i :: currentIndex <= i < |items| ==> !Less(items[i].key, key)
  {
    if |items| == 0 {
      return 0;
    }
    var lowerBound := 0;
    var upperBound := |items| - 1;
    currentIndex := 0;
    while true
      invariant 0 <= lowerBound <= upperBound < |items|
      invariant forall i :: 0 <= i < lowerBound ==> Less(items[i].key, key)
      invariant forall i :: upperBound < i < |items| ==> Less(key, items[i].key)
      decreases upperBound - lowerBound
    {
      currentIndex := (upperBound + lowerBound) / 2;
      var currentIndexValue := items[currentIndex].key;
      if CompareTo(currentIndexValue, key) == 0 {
        CompareToZero(currentIndexValue, key);
        forall i | 0 <= i < currentIndex ensures !Less(key, items[i].key) {
          LessIrreflexive(key);
        }
        forall i | currentIndex <= i < |items| ensures !Less(items[i].key, key) {
          LessIrreflexive(key);
        }
        break;
      } else if CompareTo(currentIndexValue, key) < 0 {
        SortedBelow(items, currentIndex, key);
        lowerBound := currentIndex + 1;
        if lowerBound > upperBound {
          currentIndex := currentIndex + 1;
          forall i | 0 <= i < currentIndex ensures !Less(key, items[i].key) {
            LessAsymmetric(items[i].key, key);
          }
          forall i | currentIndex <= i < |items| ensures !Less(items[i].key, key) {
            LessAsymmetric(key, items[i].key);
          }
          break;
        }
      } else {
        CompareToAntisymmetric(currentIndexValue, key);
        SortedAbove(items, currentIndex, key);
        upperBound := currentIndex - 1;
        if lowerBound > upperBound {
          forall i | 0 <= i < currentIndex ensures !Less(key, items[i].key) {
            LessAsymmetric(items[i].key, key);
          }
          forall i | currentIndex <= i < |items| ensures !Less(items[i].key, key) {
            LessAsymmetric(key, items[i].key);
          }
          break;
        }
      }
    }
  }

  /** Binary insertion (binaryInsertStudent, binaryInsertModule and
      binaryInsertStaff in src/UniversityAllocationManager.java): find the splice point by bisection, then
      rebuild the list with `e` at that point. */
  method Insert<T>(items: seq<Keyed<T>>, e: Keyed<T>) returns (r: seq<Keyed<T>>, ghost p: nat)
    requires Sorted(items)
    ensures p <= |items| && r == items[..p] + [e] + items[p..]
    ensures forall i :: 0 <= i < p ==> !Less(e.key, items[i].key)
    ensures forall i :: p <= i < |items| ==> !Less(items[i].key, e.key)
    ensures Sorted(r)
    ensures StrictlySorted(items) && !HasKey(items, e.key) ==> StrictlySorted(r)
  {
    var currentIndex := InsertionPoint(items, e.key);
    r := [];
    for i := 0 to currentIndex
      invariant r == items[..i]
    {
      r := r + [items[i]];
    }
    r := r + [e];
    for i := currentIndex to |items|
      invariant r == items[..currentIndex] + [e] + items[currentIndex..i]
    {
      r := r + [items[i]];
    }
    p := currentIndex;
    SpliceSorted(items, e, p);
    if StrictlySorted(items) && !HasKey(items, e.key) {
      SpliceStrictlySorted(items, e, p);
    }
  }

  /** Splicing adds exactly the new reference to the index's references. */
  lemma SpliceItems<T>(items: seq<Keyed<T>>, e: Keyed<T>, p: nat)
    requires p <= |items|
    ensures Items(items[..p] + [e] + items[p..]) == Items(items) + {e.item}
  {
    var r := items[..p] + [e] + items[p..];
    assert items == items[..p] + items[p..];
    forall x | x in Items(r) ensures x in Items(items) + {e.item} {
      var d :| d in r && d.item == x;
      assert d in items[..p] || d == e || d in items[p..];
    }
  }

  /** The retry loop of the identifier generators: the candidates (the
      random draws) are rendered in turn and looked up, and the first one
      whose rendering is not yet a key is chosen. */
  method FirstUnused<C, T>(items: seq<Keyed<T>>, candidates: seq<C>, render: C -> string) returns (k: nat)
    requires Sorted(items)
    requires exists c | c in candidates :: !HasKey(items, render(c))
    ensures k < |candidates| && !HasKey(items, render(candidates[k]))
    ensures forall j | 0 <= j < k :: HasKey(items, render(candidates[j]))
  {
    ghost var unused :| unused in candidates && !HasKey(items, render(unused));
    ghost var free :| 0 <= free < |candidates| && candidates[free] == unused;
    k := 0;
    while true
      invariant k <= free
      invariant forall j | 0 <= j < k :: HasKey(items, render(candidates[j]))
      decreases free - k
    {
      var found := Search(items, render(candidates[k]));
      if found.None? {
        return;
      }
      k := k + 1;
    }
  }

  /** Binary insertion as the engine uses it, on an index that does not yet
      hold the key: exactly the new entry is added, and the index stays
      strictly sorted. */
  method Add<T>(items: seq<Keyed<T>>, e: Keyed<T>) returns (r: seq<Keyed<T>>)
    requires StrictlySorted(items) && !HasKey(items, e.key)
    ensures StrictlySorted(r) && |r| == |items| + 1
    ensures multiset(r) == multiset(items) + multiset{e}
    ensures Items(r) == Items(items) + {e.item}
  {
    StrictlySortedIsSorted(items);
    ghost var p;
    r, p := Insert(items, e);
    assert items == items[..p] + items[p..];
    SpliceItems(items, e, p);
  }

  /** Removing an entry by identity keeps the index strictly sorted. */
  lemma RemoveStrictlySorted<T>(s: seq<Keyed<T>>, x: Keyed<T>)
    requires StrictlySorted(s)
    ensures StrictlySorted(Lists.RemoveFirst(s, x))
  {
    if x in s {
      var k :| 0 <= k < |s| && s[k] == x;
      assert x !in s[..k] by {
        forall i | 0 <= i < k ensures s[i] != x {
          LessIrreflexive(x.key);
        }
      }
      Lists.RemoveFirstCut(s, x, k);
      var r := s[..k] + s[k + 1..];
      forall i | 0 <= i < |r| ensures r[i] == s[if i < k then i else i + 1] {
      }
    }
  }

  /** Removing the entry of a reference from a strictly sorted index, when
      no other entry holds that reference, drops that reference and keeps
      every other. */
  lemma RemoveItems<T>(s: seq<Keyed<T>>, x: Keyed<T>)
    requires StrictlySorted(s) && x in s
    requires forall d | d in s && d.item == x.item :: d == x
    ensures Items(Lists.RemoveFirst(s, x)) == Items(s) - {x.item}
  {
    var i :| 0 <= i < |s| && s[i] == x;
    UniqueEntryCount(s, i);
    RemoveSingleItem(s, x);
  }

  lemma RemoveSingleItem<T>(s: seq<Keyed<T>>, x: Keyed<T>)
    requires multiset(s)[x] == 1
    requires forall d | d in s && d.item == x.item :: d == x
    ensures Items(Lists.RemoveFirst(s, x)) == Items(s) - {x.item}
  {
    var r := Lists.RemoveFirst(s, x);
    Lists.RemoveFirstMultiset(s, x);
    assert x !in multiset(r);
    forall y ensures y in Items(r) <==> y in Items(s) && y != x.item {
      RemoveItemsAt(s, x, y);
    }
    assert Items(r) == Items(s) - {x.item};
  }

  lemma RemoveItemsAt<T>(s: seq<Keyed<T>>, x: Keyed<T>, y: T)
    requires forall d | d in s && d.item == x.item :: d == x
    requires x !in multiset(Lists.RemoveFirst(s, x))
    requires multiset(Lists.RemoveFirst(s, x)) == multiset(s) - multiset{x}
    ensures y in Items(Lists.RemoveFirst(s, x)) <==> y in Items(s) && y != x.item
  {
    var r := Lists.RemoveFirst(s, x);
    if y in Items(r) {
      var d :| d in r && d.item == y;
      assert d in multiset(r);
      assert d in s;
    }
    if y in Items(s) && y != x.item {
      var d :| d in s && d.item == y;
      assert d in multiset(r);
    }
  }

  /** A strictly sorted index holds each of its entries once. */
  lemma {:induction false} UniqueEntryCount<T>(s: seq<Keyed<T>>, i: int)
    requires StrictlySorted(s) && 0 <= i < |s|
    ensures multiset(s)[s[i]] == 1
  {
    assert s == [s[0]] + s[1..];
    if i == 0 {
      forall k | 0 <= k < |s[1..]| ensures s[1..][k] != s[0] {
        assert s[1..][k] == s[k + 1];
        LessIrreflexive(s[0].key);
      }
    } else {
      UniqueEntryCount(s[1..], i - 1);
      assert s[0] != s[i] by { LessIrreflexive(s[0].key); }
    }
  }

  /** In a strictly sorted index one entry at most is filed under a key. */
  lemma OnlyKeyed<T>(s: seq<Keyed<T>>, k: string, x: T)
    requires StrictlySorted(s) && Keyed(k, x) in s
    ensures ItemsWithKey(s, Some(k)) == {x}
  {
    forall y | y in ItemsWithKey(s, Some(k)) ensures y == x {
      var i :| 0 <= i < |s| && s[i] == Keyed(k, x);
      var j :| 0 <= j < |s| && s[j].key == k && s[j].item == y;
      StrictlySortedKeysUnique(s, i, j);
    }
  }
}
