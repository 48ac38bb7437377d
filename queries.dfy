/** The filters and counts of src/UniversityAllocationManager.java over
    the module and student indexes, as reference definitions that scan the
    index in order, with what they mean about the stored entities. */
module Queries {
  import opened SortedIndex
  import opened Entities

  /** getRunningModules: the modules not discontinued, in index order. */
  ghost function Running(ms: seq<Keyed<Module>>): seq<Module>
    reads Items(ms)`discontinued
  {
    if ms == [] then []
    else
      var last := ms[|ms| - 1].item;
      Running(ms[..|ms| - 1]) + if !last.discontinued then [last] else []
  }

  /** getAvailableModules: the modules neither discontinued nor at
      capacity (a count equal to the capacity), in index order. */
  ghost function Available(ms: seq<Keyed<Module>>): seq<Module>
    reads Items(ms)`discontinued, Items(ms)`enrolled
  {
    if ms == [] then []
    else
      var last := ms[|ms| - 1].item;
      Available(ms[..|ms| - 1]) + if !last.discontinued && !last.AtCapacity() then [last] else []
  }

  /** getNumberOfFullyAllocatedStudents: the entries whose student has
      exactly 120 credits. */
  ghost function CountFull(ss: seq<Keyed<Student>>): nat
    reads Items(ss)`totalCredits
  {
    if ss == [] then 0
    else CountFull(ss[..|ss| - 1]) + if ss[|ss| - 1].item.totalCredits == 120 then 1 else 0
  }

  /** getNumberOfModulesAtCapacity: the entries whose module is at
      capacity. */
  ghost function CountAtCapacity(ms: seq<Keyed<Module>>): nat
    reads Items(ms)`enrolled
  {
    if ms == [] then 0
    else CountAtCapacity(ms[..|ms| - 1]) + if ms[|ms| - 1].item.AtCapacity() then 1 else 0
  }

  /** No object is filed twice. */
  ghost predicate DistinctItems<T>(s: seq<Keyed<T>>) {
    forall i, j | 0 <= i < j < |s| :: s[i].item != s[j].item
  }

  /** The items of all entries but the last, and the last one. */
  lemma ItemsSnoc<T>(s: seq<Keyed<T>>)
    requires s != []
    ensures Items(s) == Items(s[..|s| - 1]) + {s[|s| - 1].item}
  {
    var init := s[..|s| - 1];
    assert s == init + [s[|s| - 1]];
    forall x | x in Items(s) ensures x in Items(init) || x == s[|s| - 1].item {
      var e :| e in s && e.item == x;
      var k :| 0 <= k < |s| && s[k] == e;
      if k < |s| - 1 {
        assert init[k] == e;
      }
    }
  }

  /** A module is listed as running exactly when it is stored and not
      discontinued; the list is never longer than the index. */
  lemma {:induction false} RunningSpec(ms: seq<Keyed<Module>>)
    ensures forall m | m in Running(ms) :: m in Items(ms) && !m.discontinued
    ensures forall m | m in Items(ms) && !m.discontinued :: m in Running(ms)
    ensures |Running(ms)| <= |ms|
  {
    if ms != [] {
      RunningSpec(ms[..|ms| - 1]);
      ItemsSnoc(ms);
    }
  }

  /** A module is listed as available exactly when it is stored, not
      discontinued and not at capacity. */
  lemma {:induction false} AvailableSpec(ms: seq<Keyed<Module>>)
    ensures forall m | m in Available(ms) :: m in Items(ms) && !m.discontinued && !m.AtCapacity()
    ensures forall m | m in Items(ms) && !m.discontinued && !m.AtCapacity() :: m in Available(ms)
    ensures |Available(ms)| <= |ms|
  {
    if ms != [] {
      AvailableSpec(ms[..|ms| - 1]);
      ItemsSnoc(ms);
    }
  }

  /** Every available module is running. */
  lemma {:induction false} AvailableRunning(ms: seq<Keyed<Module>>)
    ensures forall m | m in Available(ms) :: m in Running(ms)
  {
    AvailableSpec(ms);
    RunningSpec(ms);
  }

  /** The stored students with 120 credits. */
  ghost function FullSet(ss: seq<Keyed<Student>>): set<Student>
    reads Items(ss)`totalCredits
  {
    set s | s in Items(ss) && s.totalCredits == 120
  }

  /** The stored modules at capacity. */
  ghost function AtCapacitySet(ms: seq<Keyed<Module>>): set<Module>
    reads Items(ms)`enrolled
  {
    set m | m in Items(ms) && m.AtCapacity()
  }

  /** In an index filing no object twice, the last object is not filed
      earlier, and the earlier entries file no object twice either. */
  lemma LastDistinct<T>(s: seq<Keyed<T>>)
    requires s != [] && DistinctItems(s)
    ensures s[|s| - 1].item !in Items(s[..|s| - 1]) && DistinctItems(s[..|s| - 1])
  {
    var init := s[..|s| - 1];
    forall e | e in init ensures e.item != s[|s| - 1].item {
      var k :| 0 <= k < |init| && init[k] == e;
      assert s[k] == e;
    }
  }

  lemma FullSetSnoc(ss: seq<Keyed<Student>>)
    requires ss != [] && ss[|ss| - 1].item !in Items(ss[..|ss| - 1])
    ensures |FullSet(ss)| == |FullSet(ss[..|ss| - 1])| + if ss[|ss| - 1].item.totalCredits == 120 then 1 else 0
  {
    var init, last := ss[..|ss| - 1], ss[|ss| - 1].item;
    ItemsSnoc(ss);
    assert last !in FullSet(init);
    if last.totalCredits == 120 {
      assert FullSet(ss) == FullSet(init) + {last};
    } else {
      assert FullSet(ss) == FullSet(init);
    }
  }

  lemma AtCapacitySetSnoc(ms: seq<Keyed<Module>>)
    requires ms != [] && ms[|ms| - 1].item !in Items(ms[..|ms| - 1])
    ensures |AtCapacitySet(ms)| == |AtCapacitySet(ms[..|ms| - 1])| + if ms[|ms| - 1].item.AtCapacity() then 1 else 0
  {
    var init, last := ms[..|ms| - 1], ms[|ms| - 1].item;
    ItemsSnoc(ms);
    assert last !in AtCapacitySet(init);
    if last.AtCapacity() {
      assert AtCapacitySet(ms) == AtCapacitySet(init) + {last};
    } else {
      assert AtCapacitySet(ms) == AtCapacitySet(init);
    }
  }

  /** With no student filed twice, the count is the number of stored
      students with exactly 120 credits. */
  lemma {:induction false} CountFullSet(ss: seq<Keyed<Student>>)
    requires DistinctItems(ss)
    ensures CountFull(ss) == |FullSet(ss)|
  {
    if ss != [] {
      LastDistinct(ss);
      CountFullSet(ss[..|ss| - 1]);
      FullSetSnoc(ss);
    }
  }

  /** With no module filed twice, the count is the number of stored
      modules at capacity. */
  lemma {:induction false} CountAtCapacitySet(ms: seq<Keyed<Module>>)
    requires DistinctItems(ms)
    ensures CountAtCapacity(ms) == |AtCapacitySet(ms)|
  {
    if ms != [] {
      LastDistinct(ms);
      CountAtCapacitySet(ms[..|ms| - 1]);
      AtCapacitySetSnoc(ms);
    }
  }

  /** An index in strictly ascending key order that files an object
      under one key only files no object twice. */
  lemma KeyedDistinct<T>(s: seq<Keyed<T>>)
    requires StrictlySorted(s)
    requires forall i, j | 0 <= i < |s| && 0 <= j < |s| && s[i].item == s[j].item :: s[i].key == s[j].key
    ensures DistinctItems(s)
  {
    forall i, j | 0 <= i < j < |s| ensures s[i].item != s[j].item {
      if s[i].item == s[j].item {
        StrictlySortedKeysUnique(s, i, j);
      }
    }
  }

  /** An index filing no object twice has as many entries as objects. */
  lemma {:induction false} DistinctItemsCard<T>(s: seq<Keyed<T>>)
    requires DistinctItems(s)
    ensures |Items(s)| == |s|
  {
    if s != [] {
      LastDistinct(s);
      DistinctItemsCard(s[..|s| - 1]);
      ItemsSnoc(s);
    }
  }
}
