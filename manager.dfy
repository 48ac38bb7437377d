/** The allocation engine of src/UniversityAllocationManager.java: three
    sorted indexes (students, staff, modules) and the operations that add,
    link, unlink and remove their entries. */
module Allocation {
  import opened Failures
  import opened Lexicographic
  import opened SortedIndex
  import opened Identifiers
  import opened Entities
  import opened Queries
  import Lists

  /** How often the student lists the module equals how often the module
      lists the student: enrolment is recorded on both sides. */
  ghost predicate Linked(s: Student, m: Module)
    reads s`modules, m`students
  {
    multiset(s.modules)[m] == multiset(m.students)[s]
  }

  /** Teaching is recorded on both sides. */
  ghost predicate Teaches(st: Staff, m: Module)
    reads st`teachingModules, m`teachingStaff
  {
    multiset(st.teachingModules)[m] == multiset(m.teachingStaff)[st]
  }

  /** The modules of `ms` that `st` is the only teacher of: the modules
      remove(Staff) leaves without staff. */
  ghost function SoleTaught(ms: seq<Module>, st: Staff): seq<Module>
    reads ms`teachingStaff
  {
    if ms == [] then []
    else
      var last := ms[|ms| - 1];
      SoleTaught(ms[..|ms| - 1], st) + if last.teachingStaff == [st] then [last] else []
  }

  /** A stored student: tallies that match the module list, at most 120
      credits in all and at most 30 from lower stages, and only stored
      modules (`ms`) on the list. */
  ghost predicate StudentOk(s: Student, ms: set<Module>)
    reads s`modules, s`sameStageCredits, s`lowerStageCredits, s`totalCredits
  {
    && s.TalliesMatch() && s.totalCredits <= 120 && s.lowerStageCredits <= 30
    && (forall m | m in s.modules :: m in ms)
  }

  /** A stored module: the count is the list length and stays within a
      non-negative capacity, a discontinued module has no links, no staff
      member is listed twice, and only stored students (`ss`) and staff
      (`sts`) are listed. */
  ghost predicate ModuleOk(m: Module, ss: set<Student>, sts: set<Staff>)
    reads m`enrolled, m`students, m`discontinued, m`teachingStaff
  {
    && m.enrolled == |m.students|
    && (m.capacity >= 0 ==> m.enrolled <= m.capacity)
    && (m.discontinued ==> m.teachingStaff == [] && m.students == [])
    && Lists.NoDup(m.teachingStaff)
    && (forall s | s in m.students :: s in ss)
    && (forall st | st in m.teachingStaff :: st in sts)
  }

  /** A stored staff member teaches only stored modules (`ms`). */
  ghost predicate StaffOk(st: Staff, ms: set<Module>)
    reads st`teachingModules
  {
    forall m | m in st.teachingModules :: m in ms
  }

  /** Each index is in strictly ascending key order and files every entry
      under the entry's own identifier, which is a valid one. */
  ghost predicate IndexesOk(students: seq<Keyed<Student>>, staff: seq<Keyed<Staff>>, modules: seq<Keyed<Module>>)
    reads Items(students)`id, Items(staff)`id, Items(modules)`code
  {
    && StrictlySorted(students) && StrictlySorted(staff) && StrictlySorted(modules)
    && (forall e | e in students :: e.item.id == Some(e.key) && ValidStudentId(e.key))
    && (forall e | e in staff :: e.item.id == Some(e.key) && ValidStaffId(e.key))
    && (forall e | e in modules :: e.item.code == Some(e.key) && ValidModuleCode(e.key))
  }

  ghost predicate StudentsOk(ss: set<Student>, ms: set<Module>)
    reads ss`modules, ss`sameStageCredits, ss`lowerStageCredits, ss`totalCredits
  {
    forall s | s in ss :: StudentOk(s, ms)
  }

  ghost predicate ModulesOk(ms: set<Module>, ss: set<Student>, sts: set<Staff>)
    reads ms`enrolled, ms`students, ms`discontinued, ms`teachingStaff
  {
    forall m | m in ms :: ModuleOk(m, ss, sts)
  }

  ghost predicate StaffMembersOk(sts: set<Staff>, ms: set<Module>)
    reads sts`teachingModules
  {
    forall st | st in sts :: StaffOk(st, ms)
  }

  ghost predicate EnrolmentsLinked(ss: set<Student>, ms: set<Module>)
    reads ss`modules, ms`students
  {
    forall s, m | s in ss && m in ms :: Linked(s, m)
  }

  ghost predicate TeachingLinked(sts: set<Staff>, ms: set<Module>)
    reads sts`teachingModules, ms`teachingStaff
  {
    forall st, m | st in sts && m in ms :: Teaches(st, m)
  }

  /** Part way through withdrawing `s` from `m`: `s` is still a valid
      student, it lists `m` `pending` more times, and apart from `m` its
      list is the one it had `before`. */
  ghost predicate Dropping(s: Student, m: Module, ms: set<Module>, pending: nat, before: seq<Module>)
    reads s`modules, s`sameStageCredits, s`lowerStageCredits, s`totalCredits
  {
    && StudentOk(s, ms)
    && multiset(s.modules)[m] == pending
    && Lists.Without(s.modules, m) == Lists.Without(before, m)
  }

  /** One removeModule call of the discontinue loop. */
  method DropOnce(s: Student, m: Module, ghost ms: set<Module>, ghost pending: nat, ghost before: seq<Module>)
    requires pending > 0 && Dropping(s, m, ms, pending, before)
    modifies s`modules, s`sameStageCredits, s`lowerStageCredits, s`totalCredits
    ensures Dropping(s, m, ms, pending - 1, before)
  {
    Lists.RemoveFirstWithin(s.modules, m, ms);
    Lists.WithoutRemoveFirst(s.modules, m);
    s.RemoveModule(m);
  }

  /** The removeModule calls of the discontinue loop, for the students
      listed in `listed`. */
  method DropAll(m: Module, listed: seq<Student>, ghost ss: set<Student>, ghost ms: set<Module>)
    requires forall u | u in listed :: u in ss
    requires forall t | t in ss :: Dropping(t, m, ms, multiset(listed)[t], t.modules)
    modifies ss`modules, ss`sameStageCredits, ss`lowerStageCredits, ss`totalCredits
    ensures forall t | t in ss :: Dropping(t, m, ms, 0, old(t.modules))
  {
    ghost var before := map t | t in ss :: t.modules;
    assert listed[0..] == listed;
    for i := 0 to |listed|
      invariant forall t | t in ss :: Dropping(t, m, ms, multiset(listed[i..])[t], before[t])
    {
      DropStep(m, listed, i, listed[i], ss, ms, before);
    }
  }

  /** One turn of the loop above: the student at position `i` drops one
      listing of `m`, and every other student is as it was. */
  method DropStep(m: Module, listed: seq<Student>, i: nat, s: Student, ghost ss: set<Student>, ghost ms: set<Module>,
                  ghost before: map<Student, seq<Module>>)
    requires i < |listed| && s == listed[i] && s in ss
    requires forall t | t in ss :: t in before && Dropping(t, m, ms, multiset(listed[i..])[t], before[t])
    modifies s`modules, s`sameStageCredits, s`lowerStageCredits, s`totalCredits
    ensures forall t | t in ss :: Dropping(t, m, ms, multiset(listed[i + 1..])[t], before[t])
  {
    assert listed[i..] == [s] + listed[i + 1..];
    DropOnce(s, m, ms, multiset(listed[i..])[s], before[s]);
  }


  /** The state discontinue leaves: the module is flagged with no links
      and no count, and it is gone from the list of every student in `ss`
      and every teacher in `sts`, the other entries keeping their order. */
  twostate predicate Withdrawn(m: Module, ss: set<Student>, sts: set<Staff>)
    reads m, ss, sts
  {
    && m.discontinued && m.students == [] && m.teachingStaff == [] && m.enrolled == 0
    && (forall t | t in ss :: t.modules == Lists.Without(old(t.modules), m))
    && (forall st | st in sts :: st.teachingModules == Lists.Without(old(st.teachingModules), m))
  }

  /** The updates of discontinue once the module is found: the students
      drop it, the teachers drop it, and it is emptied and flagged. */
  method WithdrawAll(m: Module, ghost ss: set<Student>, ghost sts: set<Staff>, ghost ms: set<Module>)
    requires ModuleOk(m, ss, sts) && StudentsOk(ss, ms) && StaffMembersOk(sts, ms)
    requires forall t | t in ss :: Linked(t, m)
    requires forall st | st in sts :: Teaches(st, m)
    modifies m`teachingStaff, m`students, m`enrolled, m`discontinued
    modifies ss`modules, ss`sameStageCredits, ss`lowerStageCredits, ss`totalCredits
    modifies sts`teachingModules
    ensures StudentsOk(ss, ms) && StaffMembersOk(sts, ms)
    ensures Withdrawn(m, ss, sts)
  {
    WithdrawStudents(m, ss, ms);
    WithdrawStaff(m, sts, ms);
    m.Discontinue();
  }

  /** The student loop of discontinue: each student on the module's list
      drops the module once per listing. */
  method WithdrawStudents(m: Module, ghost ss: set<Student>, ghost ms: set<Module>)
    requires StudentsOk(ss, ms)
    requires forall u | u in m.students :: u in ss
    requires forall t | t in ss :: Linked(t, m)
    modifies ss`modules, ss`sameStageCredits, ss`lowerStageCredits, ss`totalCredits
    ensures StudentsOk(ss, ms)
    ensures forall t | t in ss :: t.modules == Lists.Without(old(t.modules), m)
  {
    DropAll(m, m.students, ss, ms);
    forall t | t in ss ensures t.modules == Lists.Without(old(t.modules), m) {
      Lists.WithoutAbsent(t.modules, m);
    }
  }

  /** The staff loop of discontinue: each teacher on the module's list
      drops it. */
  method WithdrawStaff(m: Module, ghost sts: set<Staff>, ghost ms: set<Module>)
    requires StaffMembersOk(sts, ms)
    requires forall st | st in m.teachingStaff :: st in sts
    requires forall st | st in sts :: Teaches(st, m)
    modifies sts`teachingModules
    ensures StaffMembersOk(sts, ms)
    ensures forall st | st in sts :: st.teachingModules == Lists.Without(old(st.teachingModules), m)
  {
    UnteachAll(m, m.teachingStaff, sts, ms);
    forall st | st in sts ensures st.teachingModules == Lists.Without(old(st.teachingModules), m) {
      Lists.WithoutAbsent(st.teachingModules, m);
    }
  }

  /** Part way through the staff loop: `st` still teaches only modules of
      `ms`, lists `m` `pending` more times, and apart from `m` its list is
      the one it had `before`. */
  ghost predicate Unteaching(st: Staff, m: Module, ms: set<Module>, pending: nat, before: seq<Module>)
    reads st`teachingModules
  {
    && StaffOk(st, ms)
    && multiset(st.teachingModules)[m] == pending
    && Lists.Without(st.teachingModules, m) == Lists.Without(before, m)
  }

  /** One removeTeachingModule call of the discontinue loop. */
  method UnteachOnce(st: Staff, m: Module, ghost ms: set<Module>, ghost pending: nat, ghost before: seq<Module>)
    requires pending > 0 && Unteaching(st, m, ms, pending, before)
    modifies st`teachingModules
    ensures Unteaching(st, m, ms, pending - 1, before)
  {
    Lists.RemoveFirstWithin(st.teachingModules, m, ms);
    Lists.WithoutRemoveFirst(st.teachingModules, m);
    st.RemoveTeachingModule(m);
  }

  /** The removeTeachingModule calls of the discontinue loop, for the
      teachers listed in `listed`. */
  method UnteachAll(m: Module, listed: seq<Staff>, ghost sts: set<Staff>, ghost ms: set<Module>)
    requires forall u | u in listed :: u in sts
    requires forall st | st in sts :: Unteaching(st, m, ms, multiset(listed)[st], st.teachingModules)
    modifies sts`teachingModules
    ensures forall st | st in sts :: Unteaching(st, m, ms, 0, old(st.teachingModules))
  {
    assert listed[0..] == listed;
    for i := 0 to |listed|
      invariant forall st | st in sts :: Unteaching(st, m, ms, multiset(listed[i..])[st], old(st.teachingModules))
    {
      var st := listed[i];
      assert listed[i..] == [st] + listed[i + 1..];
      UnteachOnce(st, m, ms, multiset(listed[i..])[st], old(st.teachingModules));
    }
  }

  /** The removeStaff loop of remove(Staff), over a copy of the teacher's
      list: every module of `ms` drops the teacher, and the modules left with
      no staff are collected in list order. The teacher's own list is left
      as it was. */
  method Unassign(st: Staff, ghost ms: set<Module>) returns (noStaff: seq<Module>)
    requires forall n | n in st.teachingModules :: n in ms
    requires forall n | n in ms :: Teaches(st, n) && Lists.NoDup(n.teachingStaff)
    modifies ms`teachingStaff
    ensures noStaff == old(SoleTaught(st.teachingModules, st))
    ensures forall n | n in ms :: n.teachingStaff == Lists.Without(old(n.teachingStaff), st)
  {
    forall n | n in st.teachingModules
      ensures multiset(n.teachingStaff)[st] == 1 && multiset(st.teachingModules)[n] <= 1
    {
      Lists.NoDupCount(n.teachingStaff, st);
    }
    noStaff := UnassignEach(st.teachingModules, st, ms);
    forall n | n in ms ensures n.teachingStaff == Lists.Without(old(n.teachingStaff), st) {
      if n !in st.teachingModules {
        assert old(Teaches(st, n));
        Lists.WithoutAbsent(old(n.teachingStaff), st);
      }
    }
  }

  /** `n`'s staff list once the loop of remove(Staff) has, or has not yet,
      reached it. */
  ghost predicate Unassigned(n: Module, st: Staff, before: seq<Staff>, done: bool)
    reads n`teachingStaff
  {
    n.teachingStaff == if done then Lists.Without(before, st) else before
  }

  /** The loop itself: a removeStaff call per listed module, and the check
      for an emptied staff list after each. */
  method UnassignEach(listed: seq<Module>, st: Staff, ghost ms: set<Module>) returns (noStaff: seq<Module>)
    requires forall n | n in listed :: n in ms && multiset(n.teachingStaff)[st] == 1 && multiset(listed)[n] <= 1
    modifies ms`teachingStaff
    ensures noStaff == old(SoleTaught(listed, st))
    ensures forall n | n in ms :: Unassigned(n, st, old(n.teachingStaff), n in listed)
  {
    noStaff := [];
    ghost var before := map n | n in ms :: n.teachingStaff;
    SoleTaughtBefore(listed, st, before);
    for i := 0 to |listed|
      invariant forall n | n in ms :: Unassigned(n, st, before[n], n in listed[..i])
      invariant noStaff == SoleBefore(listed[..i], st, before)
    {
      noStaff := UnassignStep(listed, i, listed[i], st, ms, before, noStaff);
    }
    assert listed[..|listed|] == listed;
  }

  /** SoleTaught over the staff lists recorded in `before`. */
  ghost function SoleBefore(ms: seq<Module>, st: Staff, before: map<Module, seq<Staff>>): seq<Module>
    requires forall n | n in ms :: n in before
  {
    if ms == [] then []
    else
      var last := ms[|ms| - 1];
      SoleBefore(ms[..|ms| - 1], st, before) + if before[last] == [st] then [last] else []
  }

  /** With the staff lists recorded as they are, both give the same
      modules. */
  lemma {:induction false} SoleTaughtBefore(ms: seq<Module>, st: Staff, before: map<Module, seq<Staff>>)
    requires forall n | n in ms :: n in before && before[n] == n.teachingStaff
    ensures SoleTaught(ms, st) == SoleBefore(ms, st, before)
  {
    if ms != [] {
      SoleTaughtBefore(ms[..|ms| - 1], st, before);
    }
  }

  /** One turn of the loop of remove(Staff): the module at position `i`
      loses the teacher, and no other module's staff list changes. */
  method UnassignStep(listed: seq<Module>, i: nat, n: Module, st: Staff, ghost ms: set<Module>,
                      ghost before: map<Module, seq<Staff>>, noStaff: seq<Module>)
    returns (after: seq<Module>)
    requires i < |listed| && n == listed[i] && n in ms && multiset(listed)[n] <= 1
    requires forall x | x in ms :: x in before && Unassigned(x, st, before[x], x in listed[..i])
    requires multiset(before[n])[st] == 1
    requires forall x | x in listed :: x in ms
    requires noStaff == SoleBefore(listed[..i], st, before)
    modifies n`teachingStaff
    ensures after == SoleBefore(listed[..i + 1], st, before)
    ensures forall x | x in ms :: Unassigned(x, st, before[x], x in listed[..i + 1])
  {
    Lists.SingleAt(listed, i);
    Lists.PrefixOfPrefix(listed, i);
    assert listed[..i + 1] == listed[..i] + [n];
    var emptied := UnassignOne(n, st);
    after := noStaff + if emptied then [n] else [];
  }

  /** One step of the loop: removeStaff, then the check whether the
      module's staff list is now empty, which it is exactly when the teacher
      was its only one. */
  method UnassignOne(n: Module, st: Staff) returns (emptied: bool)
    requires multiset(n.teachingStaff)[st] == 1
    modifies n`teachingStaff
    ensures n.teachingStaff == Lists.Without(old(n.teachingStaff), st)
    ensures emptied == (old(n.teachingStaff) == [st])
  {
    Lists.RemoveOnce(n.teachingStaff, st);
    var _ := n.RemoveStaff(st);
    emptied := |n.teachingStaff| == 0;
  }

  // ----- addModule: resolving and linking the staff -----

  /** What binarySearchStaffID makes of one entry of addModule's staff
      array: the stored member filed under its identifier, or
      StaffNotInSystem when there is none. A missing identifier is
      dereferenced by the first comparison, so it fails as
      StaffNotInSystem only on an empty index. */
  ghost function StaffLookup(index: seq<Keyed<Staff>>, id: Option<string>): (r: Result<Staff>)
    ensures r.Success? <==> id.Some? && HasKey(index, id.value)
    ensures r.Success? ==> Keyed(id.value, r.value) in index
    ensures r.Failure? ==> r.error == if id.None? && index != [] then NullDereference else StaffNotInSystem
  {
    if id.None? then (if index == [] then Failure(StaffNotInSystem) else Failure(NullDereference))
    else match Lookup(index, id.value)
      case None => Failure(StaffNotInSystem)
      case Some(st) => Success(st)
  }

  /** The staff array resolved, entry by entry, to the stored members, or
      the failure of the first entry that does not resolve. */
  ghost function Resolve(list: seq<Staff>, index: seq<Keyed<Staff>>): Result<seq<Staff>>
    reads list
  {
    if list == [] then Success([])
    else match Resolve(list[..|list| - 1], index)
      case Failure(e) => Failure(e)
      case Success(done) =>
        match StaffLookup(index, list[|list| - 1].id)
        case Failure(e) => Failure(e)
        case Success(st) => Success(done + [st])
  }

  /** Resolution succeeds exactly when every entry has an identifier that
      is filed, and then gives, position by position, the member filed
      under the entry's identifier. */
  lemma {:induction false} ResolveSpec(list: seq<Staff>, index: seq<Keyed<Staff>>)
    ensures Resolve(list, index).Success? <==> forall st | st in list :: st.id.Some? && HasKey(index, st.id.value)
    ensures Resolve(list, index).Success? ==>
      var r := Resolve(list, index).value;
      && |r| == |list|
      && forall i | 0 <= i < |list| :: Lookup(index, list[i].id.value) == Some(r[i])
  {
    if list != [] {
      var init := list[..|list| - 1];
      ResolveSpec(init, index);
      assert list == init + [list[|list| - 1]];
    }
  }

  /** Once a prefix of the array fails to resolve, the whole array fails
      the same way: the first failure is the one reported. */
  lemma {:induction false} ResolveFailureSticks(list: seq<Staff>, index: seq<Keyed<Staff>>, n: nat)
    requires n <= |list| && Resolve(list[..n], index).Failure?
    ensures Resolve(list, index) == Resolve(list[..n], index)
    decreases |list| - n
  {
    if n < |list| {
      var init := list[..|list| - 1];
      assert init[..n] == list[..n];
      ResolveFailureSticks(init, index, n);
    } else {
      assert list[..n] == list;
    }
  }

  /** `st` lists `m` after what it taught before once `done`, and
      otherwise lists what it taught before. */
  ghost predicate Enlisted(st: Staff, m: Module, before: seq<Module>, done: bool)
    reads st`teachingModules
  {
    st.teachingModules == if done then before + [m] else before
  }

  /** The second loop of addModule on staff without repeats: each member
      goes onto the new module's staff and the module onto the member's
      teaching list, in array order. */
  method LinkStaff(m: Module, list: seq<Staff>, ghost sts: set<Staff>)
    requires !m.discontinued && m.teachingStaff == []
    requires forall st | st in list :: st in sts && st.id.Some? && multiset(list)[st] == 1
    modifies m`teachingStaff, sts`teachingModules
    ensures m.teachingStaff == list
    ensures forall st | st in sts :: Enlisted(st, m, old(st.teachingModules), st in list)
  {
    ghost var before := map st | st in sts :: st.teachingModules;
    for i := 0 to |list|
      invariant m.teachingStaff == list[..i] && !m.discontinued
      invariant forall st | st in sts :: Enlisted(st, m, before[st], st in list[..i])
    {
      LinkStep(m, list, i, list[i], sts, before);
    }
    assert list[..|list|] == list;
  }

  /** One turn of the linking loop: the member at position `i` is linked
      both ways, and nobody else's teaching list changes. */
  method LinkStep(m: Module, list: seq<Staff>, i: nat, st: Staff, ghost sts: set<Staff>, ghost before: map<Staff, seq<Module>>)
    requires i < |list| && st == list[i] && st in sts && st.id.Some? && multiset(list)[st] == 1
    requires m.teachingStaff == list[..i] && !m.discontinued
    requires forall x | x in sts :: x in before && Enlisted(x, m, before[x], x in list[..i])
    modifies m`teachingStaff, st`teachingModules
    ensures m.teachingStaff == list[..i + 1]
    ensures forall x | x in sts :: Enlisted(x, m, before[x], x in list[..i + 1])
  {
    Lists.SingleAt(list, i);
    Lists.PrefixOfPrefix(list, i);
    assert list[..i + 1] == list[..i] + [st];
    var added := m.AddStaff(st);
    st.AddTeachingModule(m);
  }

  /** The second loop of addModule as written: module.addStaff refuses
      the first member it already holds with DuplicateStaff, which ends
      the loop after the members before it have been linked both ways. */
  method LinkStaffChecked(m: Module, list: seq<Staff>, ghost sts: set<Staff>) returns (r: Outcome)
    requires !m.discontinued && m.teachingStaff == []
    requires forall st | st in list :: st in sts && st.id.Some?
    modifies m`teachingStaff, sts`teachingModules
    ensures r.Pass? <==> Lists.NoDup(list)
    ensures r.Fail? ==> r.error == DuplicateStaff && |list| > 0
    ensures r.Fail? ==> Enlisted(list[0], m, old(list[0].teachingModules), true)
    ensures r.Pass? ==> m.teachingStaff == list
    ensures r.Pass? ==> forall st | st in sts :: Enlisted(st, m, old(st.teachingModules), st in list)
  {
    for i := 0 to |list|
      invariant m.teachingStaff == list[..i] && Lists.NoDup(list[..i])
      invariant forall st | st in sts :: Enlisted(st, m, old(st.teachingModules), st in list[..i])
    {
      var st := list[i];
      Lists.PrefixOfPrefix(list, i);
      r := m.AddStaff(st);
      if r.Fail? {
        assert list[0] in list[..i];
        var j :| 0 <= j < i && list[..i][j] == st;
        assert list[j] == list[i];
        return;
      }
      Lists.NoDupSnoc(list[..i], st);
      assert list[..i + 1] == list[..i] + [st];
      st.AddTeachingModule(m);
    }
    assert list[..|list|] == list;
    r := Pass;
  }

  // ----- the query loops -----

  /** The loop of getRunningModules: the running modules in index order. */
  method RunningIn(ms: seq<Keyed<Module>>) returns (running: seq<Module>)
    ensures running == Running(ms)
  {
    running := [];
    for i := 0 to |ms|
      invariant running == Running(ms[..i])
    {
      Lists.PrefixOfPrefix(ms, i);
      var m := ms[i].item;
      if !m.discontinued {
        running := running + [m];
      }
    }
    assert ms[..|ms|] == ms;
  }

  /** The loop of getAvailableModules. */
  method AvailableIn(ms: seq<Keyed<Module>>) returns (available: seq<Module>)
    ensures available == Available(ms)
  {
    available := [];
    for i := 0 to |ms|
      invariant available == Available(ms[..i])
    {
      Lists.PrefixOfPrefix(ms, i);
      var m := ms[i].item;
      if !m.discontinued && !m.AtCapacity() {
        available := available + [m];
      }
    }
    assert ms[..|ms|] == ms;
  }

  /** The loop of getNumberOfFullyAllocatedStudents. */
  method CountFullIn(ss: seq<Keyed<Student>>) returns (n: int)
    ensures n == CountFull(ss)
  {
    n := 0;
    for i := 0 to |ss|
      invariant n == CountFull(ss[..i])
    {
      Lists.PrefixOfPrefix(ss, i);
      if ss[i].item.totalCredits == 120 {
        n := n + 1;
      }
    }
    assert ss[..|ss|] == ss;
  }

  /** The loop of getNumberOfModulesAtCapacity. */
  method CountAtCapacityIn(ms: seq<Keyed<Module>>) returns (n: int)
    ensures n == CountAtCapacity(ms)
  {
    n := 0;
    for i := 0 to |ms|
      invariant n == CountAtCapacity(ms[..i])
    {
      Lists.PrefixOfPrefix(ms, i);
      if ms[i].item.AtCapacity() {
        n := n + 1;
      }
    }
    assert ms[..|ms|] == ms;
  }

  /** The copy of a list into a fresh array. */
  method ModuleArray(xs: seq<Module>) returns (a: array<Module?>)
    ensures fresh(a) && a.Length == |xs|
    ensures forall i | 0 <= i < |xs| :: a[i] == xs[i]
  {
    a := new Module?[|xs|];
    for i := 0 to |xs|
      invariant forall j | 0 <= j < i :: a[j] == xs[j]
    {
      a[i] := xs[i];
    }
  }

  /** The invariant over the three indexes' contents. */
  ghost predicate Consistent(students: seq<Keyed<Student>>, staff: seq<Keyed<Staff>>, modules: seq<Keyed<Module>>)
    reads Items(students), Items(staff), Items(modules)
  {
    var ss, sts, ms := Items(students), Items(staff), Items(modules);
    && IndexesOk(students, staff, modules)
    && StudentsOk(ss, ms) && ModulesOk(ms, ss, sts) && StaffMembersOk(sts, ms)
    && EnrolmentsLinked(ss, ms) && TeachingLinked(sts, ms)
  }

  /** Taking a student with no enrolments out of the index keeps the
      invariant, and the stored students are the others. */
  lemma StudentUnfiled(before: seq<Keyed<Student>>, staff: seq<Keyed<Staff>>, modules: seq<Keyed<Module>>,
                       s: Student, id: string)
    requires Consistent(before, staff, modules) && Keyed(id, s) in before
    requires s.modules == [] && forall m | m in Items(modules) :: s !in m.students
    ensures Consistent(Lists.RemoveFirst(before, Keyed(id, s)), staff, modules)
    ensures Items(Lists.RemoveFirst(before, Keyed(id, s))) == Items(before) - {s}
  {
    var after := Lists.RemoveFirst(before, Keyed(id, s));
    RemoveStrictlySorted(before, Keyed(id, s));
    RemoveItems(before, Keyed(id, s));
    var ss, sts, ms := Items(after), Items(staff), Items(modules);
    forall e | e in after ensures e.item.id == Some(e.key) && ValidStudentId(e.key) {
      Lists.RemoveFirstIn(before, Keyed(id, s), e);
    }
    forall m | m in ms ensures ModuleOk(m, ss, sts) {
      assert ModuleOk(m, Items(before), sts);
    }
  }

  /** Filing a new student with no enrolments keeps the invariant. */
  lemma StudentFiled(before: seq<Keyed<Student>>, after: seq<Keyed<Student>>, staff: seq<Keyed<Staff>>,
                     modules: seq<Keyed<Module>>, s: Student, id: string)
    requires Consistent(before, staff, modules)
    requires StrictlySorted(after) && multiset(after) == multiset(before) + multiset{Keyed(id, s)}
    requires Items(after) == Items(before) + {s}
    requires s.id == Some(id) && ValidStudentId(id) && StudentOk(s, Items(modules)) && s.modules == []
    requires forall m | m in Items(modules) :: s !in m.students
    ensures Consistent(after, staff, modules)
  {
    var ss, sts, ms := Items(after), Items(staff), Items(modules);
    forall e | e in after ensures e.item.id == Some(e.key) && ValidStudentId(e.key) {
      assert e in multiset(after);
      if e != Keyed(id, s) {
        assert e in multiset(before);
      }
    }
    forall m | m in ms ensures ModuleOk(m, ss, sts) {
      assert ModuleOk(m, Items(before), sts);
    }
    forall t, m | t in ss && m in ms ensures Linked(t, m) {
      if t == s {
        assert multiset(m.students)[s] == 0;
      }
    }
  }

  /** Filing a new staff member who teaches nothing keeps the invariant. */
  lemma StaffFiled(students: seq<Keyed<Student>>, before: seq<Keyed<Staff>>, after: seq<Keyed<Staff>>,
                   modules: seq<Keyed<Module>>, st: Staff, id: string)
    requires Consistent(students, before, modules)
    requires StrictlySorted(after) && multiset(after) == multiset(before) + multiset{Keyed(id, st)}
    requires Items(after) == Items(before) + {st}
    requires st.id == Some(id) && ValidStaffId(id) && st.teachingModules == []
    requires forall m | m in Items(modules) :: st !in m.teachingStaff
    ensures Consistent(students, after, modules)
  {
    var ss, sts, ms := Items(students), Items(after), Items(modules);
    forall e | e in after ensures e.item.id == Some(e.key) && ValidStaffId(e.key) {
      assert e in multiset(after);
      if e != Keyed(id, st) {
        assert e in multiset(before);
      }
    }
    forall m | m in ms ensures ModuleOk(m, ss, sts) {
      assert ModuleOk(m, ss, Items(before));
    }
    forall t, m | t in sts && m in ms ensures Teaches(t, m) {
      if t == st {
        assert multiset(m.teachingStaff)[st] == 0;
      }
    }
  }

  /** The checks enrol makes once the student and the module are found,
      in its order: capacity (equality with the count), the 120-credit
      limit, discontinuation, the stage, then the 30-credit limit on
      lower-stage modules. Being enrolled already is not among them. */
  function Eligibility(s: Student, m: Module): (r: Outcome)
    reads s`totalCredits, s`lowerStageCredits, m`enrolled, m`discontinued
    ensures r.Pass? <==>
      && m.enrolled != m.capacity && s.totalCredits + m.credits <= 120 && !m.discontinued
      && m.stage <= s.stage && (m.stage != s.stage ==> m.credits + s.lowerStageCredits <= 30)
  {
    if m.AtCapacity() then Fail(ModuleAtCapacity)
    else if s.totalCredits + m.credits > 120 then Fail(InsufficientAvailableCredits)
    else if m.discontinued then Fail(ModuleDiscontinued)
    else if m.stage > s.stage then Fail(ModuleStageTooHigh)
    else if m.stage != s.stage && m.credits + s.lowerStageCredits > 30 then Fail(EnrollingWouldPreventHonours)
    else Pass
  }

  class AllocationManager {
    var students: seq<Keyed<Student>>
    var staff: seq<Keyed<Staff>>
    var modules: seq<Keyed<Module>>

    ghost function StudentSet(): set<Student> reads this`students { Items(students) }
    ghost function StaffSet(): set<Staff> reads this`staff { Items(staff) }
    ghost function ModuleSet(): set<Module> reads this`modules { Items(modules) }

    /** The engine's invariant: the indexes are well formed, every stored
        entity is consistent, and every link is recorded on both sides. */
    ghost predicate Valid()
      reads this, StudentSet(), StaffSet(), ModuleSet()
    {
      Consistent(students, staff, modules)
    }

    /** The manager starts with no students, staff or modules. */
    constructor ()
      ensures Valid() && students == [] && staff == [] && modules == []
    {
      students, staff, modules := [], [], [];
    }

    // ----- identity of stored entries -----

    lemma StudentIdUnique(s1: Student, s2: Student)
      requires IndexesOk(students, staff, modules) && s1 in StudentSet() && s2 in StudentSet() && s1.id == s2.id
      ensures s1 == s2
    {
      var i :| 0 <= i < |students| && students[i].item == s1;
      var j :| 0 <= j < |students| && students[j].item == s2;
      assert students[i] in students && students[j] in students;
      StrictlySortedKeysUnique(students, i, j);
    }

    lemma StaffIdUnique(s1: Staff, s2: Staff)
      requires IndexesOk(students, staff, modules) && s1 in StaffSet() && s2 in StaffSet() && s1.id == s2.id
      ensures s1 == s2
    {
      var i :| 0 <= i < |staff| && staff[i].item == s1;
      var j :| 0 <= j < |staff| && staff[j].item == s2;
      assert staff[i] in staff && staff[j] in staff;
      StrictlySortedKeysUnique(staff, i, j);
    }

    /** Codes identify stored modules: unEnrol compares codes, and this is
        what makes that the same as comparing the modules. */
    /** Since the invariant keeps the count of a stored module within a
        non-negative capacity, isAtCapacity's equality test means that no
        seat is left; a module with a negative capacity is never full. */
    lemma AtCapacityNoSeat(m: Module)
      requires Valid() && m in ModuleSet()
      ensures m.capacity >= 0 ==> (m.AtCapacity() <==> m.enrolled >= m.capacity)
      ensures m.capacity < 0 ==> !m.AtCapacity()
    {
      assert ModuleOk(m, StudentSet(), StaffSet());
    }

    lemma ModuleCodeUnique(m1: Module, m2: Module)
      requires IndexesOk(students, staff, modules) && m1 in ModuleSet() && m2 in ModuleSet() && m1.code == m2.code
      ensures m1 == m2
    {
      var i :| 0 <= i < |modules| && modules[i].item == m1;
      var j :| 0 <= j < |modules| && modules[j].item == m2;
      assert modules[i] in modules && modules[j] in modules;
      StrictlySortedKeysUnique(modules, i, j);
    }

    // ----- identifier generation -----

    /** generateStudentID with its random draws supplied: the candidates
        are tried in order, each rendered, concatenated and padded to ten
        characters, until one is not in the index. */
    method GenerateStudentId(candidates: seq<(nat, nat)>) returns (id: string, ghost k: nat)
      requires Sorted(students)
      requires forall c | c in candidates :: c.0 <= 99998 && 1 <= c.1 <= 99999
      requires exists c | c in candidates :: !HasKey(students, StudentIdOf(c.0, c.1))
      ensures k < |candidates| && id == StudentIdOf(candidates[k].0, candidates[k].1)
      ensures forall j | 0 <= j < k :: HasKey(students, StudentIdOf(candidates[j].0, candidates[j].1))
      ensures ValidStudentId(id) && !HasKey(students, id)
    {
      var i := FirstUnused(students, candidates, (c: (nat, nat)) => StudentIdOf(c.0, c.1));
      assert candidates[i] in candidates;
      id := FormatStudentId(candidates[i].0, candidates[i].1);
      k := i;
    }

    /** generateStaffID: the candidates in hexadecimal, padded to five. */
    method GenerateStaffId(candidates: seq<nat>) returns (id: string, ghost k: nat)
      requires Sorted(staff)
      requires forall c | c in candidates :: c <= 0xFFFFE
      requires exists c | c in candidates :: !HasKey(staff, StaffIdOf(c))
      ensures k < |candidates| && id == StaffIdOf(candidates[k])
      ensures forall j | 0 <= j < k :: HasKey(staff, StaffIdOf(candidates[j]))
      ensures ValidStaffId(id) && !HasKey(staff, id)
    {
      var i := FirstUnused(staff, candidates, StaffIdOf);
      assert candidates[i] in candidates;
      id := FormatStaffId(candidates[i]);
      k := i;
    }

    /** generateModuleCode: the candidates in decimal, padded to five. */
    method GenerateModuleCode(candidates: seq<nat>) returns (code: string, ghost k: nat)
      requires Sorted(modules)
      requires forall c | c in candidates :: 1 <= c <= 99999
      requires exists c | c in candidates :: !HasKey(modules, ModuleCodeOf(c))
      ensures k < |candidates| && code == ModuleCodeOf(candidates[k])
      ensures forall j | 0 <= j < k :: HasKey(modules, ModuleCodeOf(candidates[j]))
      ensures ValidModuleCode(code) && !HasKey(modules, code)
    {
      var i := FirstUnused(modules, candidates, ModuleCodeOf);
      assert candidates[i] in candidates;
      code := FormatModuleCode(candidates[i]);
      k := i;
    }

    // ----- adding students and staff -----

    /** setID on a student the engine does not hold leaves the engine as it was. */
    method StampStudent(s: Student, id: string)
      requires Valid() && s !in StudentSet() && s.id.None? && ValidStudentId(id)
      modifies s`id
      ensures Valid() && s.id == Some(id)
    {
      var outcome := s.SetId(id);
    }

    /** setID with the same ID on two students the engine does not hold:
        the copy to be filed and the argument it was made from. */
    method StampStudents(copy: Student, student: Student, id: string)
      requires Valid() && copy != student && ValidStudentId(id)
      requires copy !in StudentSet() && student !in StudentSet()
      requires copy.id.None? && student.id.None?
      modifies copy`id, student`id
      ensures Valid() && copy.id == Some(id) && student.id == Some(id)
    {
      StampStudent(copy, id);
      StampStudent(student, id);
    }

    /** setID on a staff member the engine does not hold. */
    method StampStaff(st: Staff, id: string)
      requires Valid() && st !in StaffSet() && st.id.None? && ValidStaffId(id)
      modifies st`id
      ensures Valid() && st.id == Some(id)
    {
      var outcome := st.SetId(id);
    }

    /** binaryInsertStudent of a new student with a fresh ID: the index
        gains exactly that entry and the invariant is kept. */
    method InsertStudent(s: Student, id: string)
      requires Valid() && !HasKey(students, id) && ValidStudentId(id)
      requires s.id == Some(id) && s.modules == [] && s.TalliesMatch() && s.lowerStageCredits == 0
      requires forall m | m in ModuleSet() :: s !in m.students
      modifies this`students
      ensures Valid()
      ensures multiset(students) == multiset(old(students)) + multiset{Keyed(id, s)}
      ensures StudentSet() == old(StudentSet()) + {s}
    {
      var after := Add(students, Keyed(id, s));
      StudentFiled(students, after, staff, modules, s, id);
      SetStudents(after);
    }

    /** Replaces the student index by one that keeps the invariant. */
    method SetStudents(after: seq<Keyed<Student>>)
      requires Consistent(after, staff, modules)
      modifies this`students
      ensures Valid() && students == after
    {
      students := after;
    }

    /** Replaces the staff index by one that keeps the invariant. */
    method SetStaff(after: seq<Keyed<Staff>>)
      requires Consistent(students, after, modules)
      modifies this`staff
      ensures Valid() && staff == after
    {
      staff := after;
    }

    method InsertStaff(st: Staff, id: string)
      requires Valid() && !HasKey(staff, id) && ValidStaffId(id)
      requires st.id == Some(id) && st.teachingModules == []
      requires forall m | m in ModuleSet() :: st !in m.teachingStaff
      modifies this`staff
      ensures Valid()
      ensures multiset(staff) == multiset(old(staff)) + multiset{Keyed(id, st)}
      ensures StaffSet() == old(StaffSet()) + {st}
    {
      var after := Add(staff, Keyed(id, st));
      StaffFiled(students, staff, after, modules, st, id);
      SetStaff(after);
    }

    /** addStudent(forename, surname, stage): a stage outside 1..4 is
        refused with nothing changed; otherwise a new student is filed under
        the first candidate ID not yet in use, which is returned. */
    method AddStudent(forename: string, surname: string, stage: int, candidates: seq<(nat, nat)>)
      returns (r: Result<string>, ghost added: Student?)
      requires Valid()
      requires forall c | c in candidates :: c.0 <= 99998 && 1 <= c.1 <= 99999
      requires exists c | c in candidates :: !HasKey(students, StudentIdOf(c.0, c.1))
      modifies this
      ensures Valid() && staff == old(staff) && modules == old(modules)
      ensures r.Success? <==> IsStage(stage)
      ensures r.Failure? ==> r.error == InvalidStage && students == old(students)
      ensures r.Success? ==> ValidStudentId(r.value) && !HasKey(old(students), r.value)
      ensures r.Success? ==> exists c | c in candidates :: r.value == StudentIdOf(c.0, c.1)
      ensures r.Success? ==> added != null && fresh(added) && added.id == Some(r.value)
      ensures r.Success? ==> added.forename == forename && added.surname == surname && added.stage == stage
      ensures r.Success? ==> added.modules == [] && added.totalCredits == 0
      ensures r.Success? ==> multiset(students) == multiset(old(students)) + multiset{Keyed(r.value, added as Student)}
    {
      added := null;
      var created := Student.New(forename, surname, stage);
      if created.Failure? {
        return Failure(created.error), null;
      }
      var s := created.value;
      StrictlySortedIsSorted(students);
      var id, k := GenerateStudentId(candidates);
      StampStudent(s, id);
      InsertStudent(s, id);
      added := s;
      r := Success(id);
    }

    /** addStudent(Student): a student that already has an ID is refused
        with nothing changed; otherwise a fresh ID is set both in a new copy
        of the student, which is filed, and in the argument, which is not. */
    method AddStudentRecord(student: Student, candidates: seq<(nat, nat)>)
      returns (r: Outcome, ghost added: Student?)
      requires Valid()
      requires forall c | c in candidates :: c.0 <= 99998 && 1 <= c.1 <= 99999
      requires exists c | c in candidates :: !HasKey(students, StudentIdOf(c.0, c.1))
      modifies this, student`id
      ensures Valid() && staff == old(staff) && modules == old(modules)
      ensures r.Pass? <==> old(student.id).None?
      ensures r.Fail? ==> r.error == IdAlreadySet && students == old(students) && student.id == old(student.id)
      ensures r.Pass? ==> student.id.Some? && ValidStudentId(student.id.value)
      ensures r.Pass? ==> !HasKey(old(students), student.id.value)
      ensures r.Pass? ==> added != null && fresh(added) && added.id == student.id && added.stage == student.stage
      ensures r.Pass? ==> added.forename == student.forename && added.surname == student.surname
      ensures r.Pass? ==> added.modules == [] && added.totalCredits == 0
      ensures r.Pass? ==> multiset(students) == multiset(old(students)) + multiset{Keyed(student.id.value, added as Student)}
    {
      added := null;
      var copy := new Student(student.forename, student.surname, student.stage);
      if student.id.Some? {
        return Fail(IdAlreadySet), null;
      }
      assert student !in StudentSet();
      StrictlySortedIsSorted(students);
      var id, k := GenerateStudentId(candidates);
      StampStudents(copy, student, id);
      InsertStudent(copy, id);
      added := copy;
      r := Pass;
    }

    /** addStaff(forename, surname): a new staff member filed under the
        first candidate ID not yet in use, which is returned. */
    method AddStaff(forename: string, surname: string, candidates: seq<nat>)
      returns (id: string, ghost added: Staff)
      requires Valid()
      requires forall c | c in candidates :: c <= 0xFFFFE
      requires exists c | c in candidates :: !HasKey(staff, StaffIdOf(c))
      modifies this
      ensures Valid() && students == old(students) && modules == old(modules)
      ensures ValidStaffId(id) && !HasKey(old(staff), id)
      ensures exists c | c in candidates :: id == StaffIdOf(c)
      ensures fresh(added) && added.id == Some(id) && added.teachingModules == []
      ensures added.forename == forename && added.surname == surname
      ensures multiset(staff) == multiset(old(staff)) + multiset{Keyed(id, added)}
    {
      var st := new Staff(forename, surname);
      StrictlySortedIsSorted(staff);
      ghost var k;
      id, k := GenerateStaffId(candidates);
      StampStaff(st, id);
      InsertStaff(st, id);
      added := st;
    }

    /** addStaff(Staff): a staff member that already has an ID is refused
        with nothing changed; otherwise a fresh ID is set both in a new copy,
        which is filed, and in the argument, which is not. */
    method AddStaffRecord(member: Staff, candidates: seq<nat>)
      returns (r: Outcome, ghost added: Staff?)
      requires Valid()
      requires forall c | c in candidates :: c <= 0xFFFFE
      requires exists c | c in candidates :: !HasKey(staff, StaffIdOf(c))
      modifies this, member`id
      ensures Valid() && students == old(students) && modules == old(modules)
      ensures r.Pass? <==> old(member.id).None?
      ensures r.Fail? ==> r.error == IdAlreadySet && staff == old(staff) && member.id == old(member.id)
      ensures r.Pass? ==> member.id.Some? && ValidStaffId(member.id.value)
      ensures r.Pass? ==> !HasKey(old(staff), member.id.value)
      ensures r.Pass? ==> added != null && fresh(added) && added.id == member.id && added.teachingModules == []
      ensures r.Pass? ==> added.forename == member.forename && added.surname == member.surname
      ensures r.Pass? ==> multiset(staff) == multiset(old(staff)) + multiset{Keyed(member.id.value, added as Staff)}
    {
      added := null;
      var copy := new Staff(member.forename, member.surname);
      if member.id.Some? {
        return Fail(IdAlreadySet), null;
      }
      assert member !in StaffSet();
      StrictlySortedIsSorted(staff);
      var id, k := GenerateStaffId(candidates);
      StampStaff(copy, id);
      StampStaff(member, id);
      InsertStaff(copy, id);
      added := copy;
      r := Pass;
    }
  
    // ----- adding modules -----

    /** Replaces the module index by one that keeps the invariant. */
    method SetModules(after: seq<Keyed<Module>>)
      requires Consistent(students, staff, after)
      modifies this`modules
      ensures Valid() && modules == after
    {
      modules := after;
    }

    /** The lookups of addModule's first staff loop, in array order. */
    method ResolveStaff(list: seq<Staff>) returns (r: Result<seq<Staff>>)
      requires StrictlySorted(staff)
      ensures r == Resolve(list, staff)
    {
      StrictlySortedIsSorted(staff);
      var done := [];
      for i := 0 to |list|
        invariant Resolve(list[..i], staff) == Success(done)
      {
        Lists.PrefixOfPrefix(list, i);
        var id := list[i].id;
        if id.None? {
          r := if |staff| == 0 then Failure(StaffNotInSystem) else Failure(NullDereference);
          ResolveFailureSticks(list, staff, i + 1);
          return;
        }
        var found := Search(staff, id.value);
        if found.None? {
          ResolveFailureSticks(list, staff, i + 1);
          return Failure(StaffNotInSystem);
        }
        LookupUnique(staff, id.value, found.value);
        done := done + [found.value];
      }
      assert list[..|list|] == list;
      r := Success(done);
    }

    /** The checks addModule makes before it changes anything, in its
        order: the capacity, the array compared pairwise by identity, the
        lookup of every entry, then the module's credits and stage. */
    ghost function BuildOutcome(credits: int, stage: int, capacity: int, staffList: seq<Staff>): Outcome
      reads this, staffList
    {
      if capacity < 1 then Fail(InvalidCapacity)
      else if !Lists.NoDup(staffList) then Fail(DuplicateStaff)
      else if Resolve(staffList, staff).Failure? then Fail(Resolve(staffList, staff).error)
      else if !IsCredits(credits) then Fail(InvalidCredits)
      else if !IsStage(stage) then Fail(InvalidStage)
      else Pass
    }

    /** What addModule reports: the checks above, then DuplicateStaff when
        two entries resolve to the same stored member. */
    ghost function AddModuleOutcome(credits: int, stage: int, capacity: int, staffList: seq<Staff>): Outcome
      reads this, staffList
    {
      var built := BuildOutcome(credits, stage, capacity, staffList);
      if built.Fail? then built
      else if !Lists.NoDup(Resolve(staffList, staff).value) then Fail(DuplicateStaff)
      else Pass
    }

    /** The part of addModule before anything changes: the checks, the
        new code (the first candidate not in use), the stored members the
        entries resolve to, and the new module, which holds no links. */
    method BuildModule(name: string, credits: int, stage: int, capacity: int, staffList: seq<Staff>,
                       candidates: seq<nat>)
      returns (r: Outcome, code: string, m: Module?, resolved: seq<Staff>)
      requires Valid()
      requires forall c | c in candidates :: 1 <= c <= 99999
      requires exists c | c in candidates :: !HasKey(modules, ModuleCodeOf(c))
      ensures r == BuildOutcome(credits, stage, capacity, staffList)
      ensures r.Pass? ==> resolved == Resolve(staffList, staff).value
      ensures r.Pass? ==> forall st | st in resolved :: st in StaffSet() && st.id.Some?
      ensures r.Pass? ==> ValidModuleCode(code) && !HasKey(modules, code)
      ensures r.Pass? ==> exists c | c in candidates :: code == ModuleCodeOf(c)
      ensures r.Pass? ==> m != null && fresh(m) && m.code == Some(code)
      ensures r.Pass? ==> m.name == name && m.credits == credits && m.stage == stage && m.capacity == capacity
      ensures r.Pass? ==> m.teachingStaff == [] && m.students == [] && m.enrolled == 0 && !m.discontinued
    {
      m, resolved := null, [];
      if capacity < 1 {
        return Fail(InvalidCapacity), "", null, [];
      }
      var repeat := Lists.FindRepeat(staffList);
      if repeat {
        return Fail(DuplicateStaff), "", null, [];
      }
      StrictlySortedIsSorted(modules);
      ghost var k;
      code, k := GenerateModuleCode(candidates);
      assert candidates[k] in candidates;
      var found := ResolveStaff(staffList);
      if found.Failure? {
        return Fail(found.error), code, null, [];
      }
      resolved := found.value;
      ResolveSpec(staffList, staff);
      forall st | st in resolved ensures st in StaffSet() && st.id.Some? {
        var i :| 0 <= i < |resolved| && resolved[i] == st;
        var e := Keyed(staffList[i].id.value, st);
        assert Lookup(staff, staffList[i].id.value) == Some(st);
        assert e in staff;
      }
      var made := Module.NewWithCode(name, credits, stage, capacity, code);
      if made.Failure? {
        return Fail(made.error), code, null, resolved;
      }
      m := made.value;
      r := Pass;
    }

    /** Filing a new module, already linked both ways to the staff on its
        list and to no student, keeps the invariant. */
    twostate lemma ModuleFiled(new m: Module, new after: seq<Keyed<Module>>)
      requires old(Valid()) && unchanged(this) && m !in ModuleSet()
      requires m.code.Some? && ValidModuleCode(m.code.value)
      requires StrictlySorted(after) && multiset(after) == multiset(modules) + multiset{Keyed(m.code.value, m)}
      requires Items(after) == ModuleSet() + {m}
      requires m.students == [] && m.enrolled == 0 && !m.discontinued
      requires Lists.NoDup(m.teachingStaff) && forall st | st in m.teachingStaff :: st in StaffSet()
      requires forall t | t in StudentSet() ::
        && t.id == old(t.id) && t.modules == old(t.modules) && t.sameStageCredits == old(t.sameStageCredits)
        && t.lowerStageCredits == old(t.lowerStageCredits) && t.totalCredits == old(t.totalCredits)
      requires forall n | n in ModuleSet() ::
        && n.code == old(n.code) && n.enrolled == old(n.enrolled) && n.students == old(n.students)
        && n.discontinued == old(n.discontinued) && n.teachingStaff == old(n.teachingStaff)
      requires forall st | st in StaffSet() ::
        st.id == old(st.id) && Enlisted(st, m, old(st.teachingModules), st in m.teachingStaff)
      ensures Consistent(students, staff, after)
    {
      var ss, sts, ms := StudentSet(), StaffSet(), Items(after);
      assert old(IndexesOk(students, staff, modules));
      forall e | e in after ensures e.item.code == Some(e.key) && ValidModuleCode(e.key) {
        assert e in multiset(after);
        if e != Keyed(m.code.value, m) {
          assert e in multiset(modules);
        }
      }
      forall t | t in ss ensures StudentOk(t, ms) {
        assert old(StudentOk(t, ModuleSet()));
      }
      forall n | n in ms ensures ModuleOk(n, ss, sts) {
        if n != m {
          assert old(ModuleOk(n, ss, sts));
        }
      }
      forall st | st in sts ensures StaffOk(st, ms) {
        assert old(StaffOk(st, ModuleSet()));
      }
      forall t, n | t in ss && n in ms ensures Linked(t, n) {
        assert old(StudentOk(t, ModuleSet()));
        if n != m {
          assert old(Linked(t, n));
        }
      }
      forall st, n | st in sts && n in ms ensures Teaches(st, n) {
        assert old(StaffOk(st, ModuleSet()));
        if n == m {
          Lists.NoDupCount(m.teachingStaff, st);
        } else {
          assert old(Teaches(st, n));
        }
      }
    }

    /** addModule(name, credits, stage, capacity, staff), with the repeat
        of a stored member detected before anything is linked: a refusal
        changes nothing; otherwise the new module, under the first
        candidate code not in use, is taught by the stored members the
        entries resolve to, each of which lists it last. */
    method AddModule(name: string, credits: int, stage: int, capacity: int, staffList: seq<Staff>,
                     candidates: seq<nat>)
      returns (r: Result<string>, ghost added: Module?)
      requires Valid()
      requires forall c | c in candidates :: 1 <= c <= 99999
      requires exists c | c in candidates :: !HasKey(modules, ModuleCodeOf(c))
      modifies this`modules, StaffSet()`teachingModules
      ensures Valid() && students == old(students) && staff == old(staff)
      ensures r.Failure? <==> old(AddModuleOutcome(credits, stage, capacity, staffList)).Fail?
      ensures r.Failure? ==> r.error == old(AddModuleOutcome(credits, stage, capacity, staffList)).error
      ensures r.Failure? ==> modules == old(modules) && unchanged(StaffSet())
      ensures r.Success? ==> ValidModuleCode(r.value) && !HasKey(old(modules), r.value)
      ensures r.Success? ==> exists c | c in candidates :: r.value == ModuleCodeOf(c)
      ensures r.Success? ==> added != null && fresh(added) && added.code == Some(r.value)
      ensures r.Success? ==> added.name == name && added.credits == credits && added.stage == stage && added.capacity == capacity
      ensures r.Success? ==> added.students == [] && added.enrolled == 0 && !added.discontinued
      ensures r.Success? ==> added.teachingStaff == old(Resolve(staffList, staff)).value
      ensures r.Success? ==> multiset(modules) == multiset(old(modules)) + multiset{Keyed(r.value, added as Module)}
      ensures r.Success? ==> forall st | st in StaffSet() :: Enlisted(st, added, old(st.teachingModules), st in added.teachingStaff)
    {
      added := null;
      var built, code, m, resolved := BuildModule(name, credits, stage, capacity, staffList, candidates);
      if built.Fail? {
        return Failure(built.error), null;
      }
      var repeat := Lists.FindRepeat(resolved);
      if repeat {
        return Failure(DuplicateStaff), null;
      }
      Enlist(m, code, resolved);
      r, added := Success(code), m;
    }

    /** The second loop of addModule on staff without repeats, then
        binaryInsertModule: the module is linked both ways to `list` and
        filed under `code`. */
    method Enlist(m: Module, code: string, list: seq<Staff>)
      requires Valid() && m !in ModuleSet() && !HasKey(modules, code)
      requires m.code == Some(code) && ValidModuleCode(code)
      requires m.teachingStaff == [] && m.students == [] && m.enrolled == 0 && !m.discontinued
      requires Lists.NoDup(list) && forall st | st in list :: st in StaffSet() && st.id.Some?
      modifies this`modules, m`teachingStaff, StaffSet()`teachingModules
      ensures Valid() && m.teachingStaff == list
      ensures multiset(modules) == multiset(old(modules)) + multiset{Keyed(code, m)}
      ensures forall st | st in StaffSet() :: Enlisted(st, m, old(st.teachingModules), st in list)
    {
      forall st | st in list ensures multiset(list)[st] == 1 {
        Lists.NoDupCount(list, st);
      }
      LinkStaff(m, list, StaffSet());
      var after := Add(modules, Keyed(code, m));
      ModuleFiled(m, after);
      SetModules(after);
    }

    /** addModule(name, credits, stage, capacity, staff) as written: the
        same checks and the same result, but the repeat of a stored member
        is found by module.addStaff inside the linking loop, after the
        first member already lists the module, which is never filed. */
    method AddModuleAsWritten(name: string, credits: int, stage: int, capacity: int, staffList: seq<Staff>,
                              candidates: seq<nat>)
      returns (r: Result<string>, ghost added: Module?)
      requires Valid()
      requires forall c | c in candidates :: 1 <= c <= 99999
      requires exists c | c in candidates :: !HasKey(modules, ModuleCodeOf(c))
      modifies this`modules, StaffSet()`teachingModules
      ensures students == old(students) && staff == old(staff)
      ensures r.Failure? <==> old(AddModuleOutcome(credits, stage, capacity, staffList)).Fail?
      ensures r.Failure? ==> r.error == old(AddModuleOutcome(credits, stage, capacity, staffList)).error
      ensures r.Failure? ==> modules == old(modules)
      ensures r.Failure? && old(BuildOutcome(credits, stage, capacity, staffList)).Pass? ==> !Valid()
      ensures r.Success? ==> Valid() && added != null && fresh(added) && added.code == Some(r.value)
      ensures r.Success? ==> added.teachingStaff == old(Resolve(staffList, staff)).value
      ensures r.Success? ==> multiset(modules) == multiset(old(modules)) + multiset{Keyed(r.value, added as Module)}
    {
      added := null;
      var built, code, m, resolved := BuildModule(name, credits, stage, capacity, staffList, candidates);
      if built.Fail? {
        return Failure(built.error), null;
      }
      var linked := LinkStaffChecked(m, resolved, StaffSet());
      if linked.Fail? {
        assert m in resolved[0].teachingModules && resolved[0] in StaffSet();
        assert !StaffOk(resolved[0], ModuleSet());
        return Failure(linked.error), null;
      }
      var after := Add(modules, Keyed(code, m));
      ModuleFiled(m, after);
      SetModules(after);
      r, added := Success(code), m;
    }

    /** addModule(Module): a module that already has a code is refused
        with nothing changed; otherwise a fresh code is set both in a new
        copy (same name, credits, stage and capacity, no links), which is
        filed, and in the argument, which is not. */
    method AddModuleRecord(course: Module, candidates: seq<nat>) returns (r: Outcome, ghost added: Module?)
      requires Valid()
      requires forall c | c in candidates :: 1 <= c <= 99999
      requires exists c | c in candidates :: !HasKey(modules, ModuleCodeOf(c))
      modifies this`modules, course`code
      ensures Valid() && students == old(students) && staff == old(staff)
      ensures r.Pass? <==> old(course.code).None?
      ensures r.Fail? ==> r.error == IdAlreadySet && modules == old(modules) && course.code == old(course.code)
      ensures r.Pass? ==> course.code.Some? && ValidModuleCode(course.code.value)
      ensures r.Pass? ==> !HasKey(old(modules), course.code.value)
      ensures r.Pass? ==> exists c | c in candidates :: course.code.value == ModuleCodeOf(c)
      ensures r.Pass? ==> added != null && fresh(added) && added.code == course.code
      ensures r.Pass? ==> added.name == course.name && added.credits == course.credits
      ensures r.Pass? ==> added.stage == course.stage && added.capacity == course.capacity
      ensures r.Pass? ==> added.teachingStaff == [] && added.students == [] && !added.discontinued
      ensures r.Pass? ==> multiset(modules) == multiset(old(modules)) + multiset{Keyed(course.code.value, added as Module)}
    {
      added := null;
      var copy := new Module(course.name, course.credits, course.stage, course.capacity);
      if course.code.Some? {
        return Fail(IdAlreadySet), null;
      }
      assert course !in ModuleSet();
      StrictlySortedIsSorted(modules);
      var code, k := GenerateModuleCode(candidates);
      assert candidates[k] in candidates;
      var _ := copy.SetCode(code);
      var _ := course.SetCode(code);
      var after := Add(modules, Keyed(code, copy));
      ModuleFiled(copy, after);
      SetModules(after);
      r, added := Pass, copy;
    }

    // ----- enrolment -----

    /** The lookups enrol and unEnrol start with: both formats are checked,
        then both identifiers are looked up. */
    ghost function Locate(studentId: string, moduleCode: string): Outcome
      reads this
    {
      if !ValidStudentId(studentId) || !ValidModuleCode(moduleCode) then Fail(InvalidId)
      else if !HasKey(students, studentId) || !HasKey(modules, moduleCode) then Fail(IdNotRecognised)
      else Pass
    }

    ghost function StudentOf(studentId: string): (s: Student)
      reads this
      requires HasKey(students, studentId)
      ensures s in StudentSet() && s in ItemsWithKey(students, Some(studentId))
    {
      Lookup(students, studentId).value
    }

    ghost function ModuleOf(moduleCode: string): (m: Module)
      reads this
      requires HasKey(modules, moduleCode)
      ensures m in ModuleSet() && m in ItemsWithKey(modules, Some(moduleCode))
    {
      Lookup(modules, moduleCode).value
    }

    /** What enrol reports. */
    ghost function EnrolOutcome(studentId: string, moduleCode: string): Outcome
      reads this, StudentSet(), ModuleSet()
    {
      if Locate(studentId, moduleCode).Fail? then Locate(studentId, moduleCode)
      else
        Eligibility(StudentOf(studentId), ModuleOf(moduleCode))
    }

    /** The two lookups of enrol in src/UniversityAllocationManager.java,
        by binary search. */
    method Find(studentId: string, moduleCode: string) returns (r: Outcome, s: Student?, m: Module?)
      requires IndexesOk(students, staff, modules)
      ensures r == Locate(studentId, moduleCode)
      ensures r.Pass? ==> s == StudentOf(studentId) && m == ModuleOf(moduleCode)
      ensures r.Pass? ==> s in ItemsWithKey(students, Some(studentId)) && s in StudentSet()
      ensures r.Pass? ==> m in ItemsWithKey(modules, Some(moduleCode)) && m in ModuleSet()
      ensures r.Pass? ==> ItemsWithKey(students, Some(studentId)) == {s} && ItemsWithKey(modules, Some(moduleCode)) == {m}
    {
      s, m := null, null;
      r := CheckValidStudentId(studentId);
      if r.Fail? {
        return;
      }
      r := CheckValidCode(moduleCode);
      if r.Fail? {
        return;
      }
      StrictlySortedIsSorted(students);
      StrictlySortedIsSorted(modules);
      var student := Search(students, studentId);
      var course := Search(modules, moduleCode);
      if student.None? || course.None? {
        return Fail(IdNotRecognised), null, null;
      }
      s, m := student.value, course.value;
      LookupUnique(students, studentId, s);
      LookupUnique(modules, moduleCode, m);
      assert Keyed(studentId, s as Student) in students && Keyed(moduleCode, m as Module) in modules;
      OnlyKeyed(students, studentId, s);
      OnlyKeyed(modules, moduleCode, m);
    }

    /** enrol: the lookups, then the eligibility checks, all before any
        change; on success the module is appended to the student's list (and
        its credits to the tallies) and the student to the module's list,
        and the count goes up. A failure changes nothing. */
    method Enrol(studentId: string, moduleCode: string) returns (r: Outcome)
      requires Valid()
      modifies ItemsWithKey(students, Some(studentId))`modules, ItemsWithKey(students, Some(studentId))`sameStageCredits
      modifies ItemsWithKey(students, Some(studentId))`lowerStageCredits, ItemsWithKey(students, Some(studentId))`totalCredits
      modifies ItemsWithKey(modules, Some(moduleCode))`students, ItemsWithKey(modules, Some(moduleCode))`enrolled
      ensures Valid()
      ensures r == old(EnrolOutcome(studentId, moduleCode))
      ensures r.Fail? ==> unchanged(ItemsWithKey(students, Some(studentId)), ItemsWithKey(modules, Some(moduleCode)))
      ensures r.Pass? ==> EnrolledIn(StudentOf(studentId), ModuleOf(moduleCode))
    {
      var s, m;
      r, s, m := Find(studentId, moduleCode);
      if r.Fail? {
        return;
      }
      r := Eligibility(s, m);
      if r.Fail? {
        return;
      }
      Link(s, m);
    }

    /** The two updates enrol makes once every check has passed. */
    method Link(s: Student, m: Module)
      requires Valid() && s in StudentSet() && m in ModuleSet() && Eligibility(s, m).Pass?
      modifies s`modules, s`sameStageCredits, s`lowerStageCredits, s`totalCredits, m`students, m`enrolled
      ensures Valid() && EnrolledIn(s, m)
    {
      s.AssignModule(m);
      m.AddStudent(s);
      assert StudentOk(s, ModuleSet());
      StudentsKept(s);
      assert ModuleOk(m, StudentSet(), StaffSet());
      ModulesKept(m);
      EnrolmentsRelinked(s, m, true);
      TeachingKept();
    }

    /** The student conditions survive a change to one student `s` that
        leaves it consistent and the indexes as they were. */
    twostate lemma StudentsKept(s: Student)
      requires old(StudentsOk(StudentSet(), ModuleSet())) && students == old(students) && modules == old(modules)
      requires StudentOk(s, ModuleSet())
      requires forall t | t in StudentSet() && t != s ::
        && t.modules == old(t.modules) && t.sameStageCredits == old(t.sameStageCredits)
        && t.lowerStageCredits == old(t.lowerStageCredits) && t.totalCredits == old(t.totalCredits)
      ensures StudentsOk(StudentSet(), ModuleSet())
    {
      forall t | t in StudentSet() ensures StudentOk(t, ModuleSet()) {
        if t != s {
          assert old(StudentOk(t, ModuleSet()));
        }
      }
    }

    /** The module conditions survive a change to one module `m` that leaves
        it consistent and the indexes as they were. */
    twostate lemma ModulesKept(m: Module)
      requires old(ModulesOk(ModuleSet(), StudentSet(), StaffSet())) && students == old(students) && staff == old(staff) && modules == old(modules)
      requires ModuleOk(m, StudentSet(), StaffSet())
      requires forall n | n in ModuleSet() && n != m ::
        && n.enrolled == old(n.enrolled) && n.students == old(n.students)
        && n.discontinued == old(n.discontinued) && n.teachingStaff == old(n.teachingStaff)
      ensures ModulesOk(ModuleSet(), StudentSet(), StaffSet())
    {
      forall n | n in ModuleSet() ensures ModuleOk(n, StudentSet(), StaffSet()) {
        if n != m {
          assert old(ModuleOk(n, StudentSet(), StaffSet()));
        }
      }
    }

    /** Enrolment links survive adding (or, when `added` is false,
        removing) one occurrence of `m` on the list of `s` together with one
        occurrence of `s` on the list of `m`, all other lists unchanged. */
    twostate lemma EnrolmentsRelinked(new s: Student, new m: Module, added: bool)
      requires old(EnrolmentsLinked(StudentSet(), ModuleSet())) && students == old(students) && modules == old(modules)
      requires old(allocated(s)) && old(allocated(m)) && s in StudentSet() && m in ModuleSet()
      requires forall t | t in StudentSet() && t != s :: t.modules == old(t.modules)
      requires forall n | n in ModuleSet() && n != m :: n.students == old(n.students)
      requires added ==> multiset(s.modules) == multiset(old(s.modules)) + multiset{m}
      requires added ==> multiset(m.students) == multiset(old(m.students)) + multiset{s}
      requires !added ==> multiset(old(s.modules)) == multiset(s.modules) + multiset{m}
      requires !added ==> multiset(old(m.students)) == multiset(m.students) + multiset{s}
      ensures EnrolmentsLinked(StudentSet(), ModuleSet())
    {
      forall t, n | t in StudentSet() && n in ModuleSet() ensures Linked(t, n) {
        assert old(Linked(t, n));
      }
    }

    /** The staff side of the invariant survives any change that leaves the
        indexes and every teaching list as they were. */
    twostate lemma TeachingKept()
      requires old(StaffMembersOk(StaffSet(), ModuleSet()) && TeachingLinked(StaffSet(), ModuleSet()))
      requires staff == old(staff) && modules == old(modules)
      requires forall st | st in StaffSet() :: st.teachingModules == old(st.teachingModules)
      requires forall n | n in ModuleSet() :: n.teachingStaff == old(n.teachingStaff)
      ensures StaffMembersOk(StaffSet(), ModuleSet()) && TeachingLinked(StaffSet(), ModuleSet())
    {
      forall st | st in StaffSet() ensures StaffOk(st, ModuleSet()) {
        assert old(StaffOk(st, ModuleSet()));
      }
      forall st, n | st in StaffSet() && n in ModuleSet() ensures Teaches(st, n) {
        assert old(Teaches(st, n));
      }
    }

    /** The change enrol makes to the pair. */
    twostate predicate EnrolledIn(s: Student, m: Module)
      reads s, m
    {
      && s.modules == old(s.modules) + [m] && m.students == old(m.students) + [s]
      && m.enrolled == old(m.enrolled) + 1
      && s.sameStageCredits == old(s.sameStageCredits) + Share(m, s.stage, SameStage)
      && s.lowerStageCredits == old(s.lowerStageCredits) + Share(m, s.stage, LowerStage)
      && s.totalCredits == old(s.totalCredits) + m.credits
    }

    // ----- unenrolment -----

    /** What unEnrol reports: the lookup failures, else whether the module
        is on the student's list. */
    ghost function UnEnrolResult(studentId: string, moduleCode: string): Result<bool>
      reads this, StudentSet()
    {
      if Locate(studentId, moduleCode).Fail? then Failure(Locate(studentId, moduleCode).error)
      else Success(ModuleOf(moduleCode) in StudentOf(studentId).modules)
    }

    /** unEnrol: the lookups as in enrol; then the student's modules are
        scanned for the module's code, and the first match is unlinked on
        both sides. A student not on the module is reported with `false`
        and nothing changes. */
    method UnEnrol(studentId: string, moduleCode: string) returns (r: Result<bool>)
      requires Valid()
      modifies ItemsWithKey(students, Some(studentId))`modules, ItemsWithKey(students, Some(studentId))`sameStageCredits
      modifies ItemsWithKey(students, Some(studentId))`lowerStageCredits, ItemsWithKey(students, Some(studentId))`totalCredits
      modifies ItemsWithKey(modules, Some(moduleCode))`students, ItemsWithKey(modules, Some(moduleCode))`enrolled
      ensures Valid()
      ensures r == old(UnEnrolResult(studentId, moduleCode))
      ensures r != Success(true) ==> unchanged(ItemsWithKey(students, Some(studentId)), ItemsWithKey(modules, Some(moduleCode)))
      ensures r == Success(true) ==> UnenrolledFrom(StudentOf(studentId), ModuleOf(moduleCode))
    {
      var found, s, m := Find(studentId, moduleCode);
      if found.Fail? {
        return Failure(found.error);
      }
      var removed := Withdraw(s, m);
      r := Success(removed);
    }

    /** The scan unEnrol makes once both are found: the first module on the
        student's list with the module's code is unlinked, which is the
        module itself since codes are unique. */
    method Withdraw(s: Student, m: Module) returns (removed: bool)
      requires Valid() && s in StudentSet() && m in ModuleSet()
      modifies s`modules, s`sameStageCredits, s`lowerStageCredits, s`totalCredits, m`students, m`enrolled
      ensures Valid()
      ensures removed == old(m in s.modules)
      ensures !removed ==> unchanged(s, m)
      ensures removed ==> UnenrolledFrom(s, m)
    {
      var i := 0;
      while i < |s.modules| && s.modules[i].code != m.code
        invariant i <= |s.modules| && m !in s.modules[..i]
      {
        i := i + 1;
      }
      if i == |s.modules| {
        assert s.modules[..i] == s.modules;
        return false;
      }
      var enrolledModule := s.modules[i];
      assert enrolledModule in s.modules;
      ModuleCodeUnique(enrolledModule, m);
      Unlink(s, enrolledModule);
      removed := true;
    }

    /** The two updates unEnrol makes on a match. */
    method Unlink(s: Student, m: Module)
      requires Valid() && s in StudentSet() && m in ModuleSet() && m in s.modules
      modifies s`modules, s`sameStageCredits, s`lowerStageCredits, s`totalCredits, m`students, m`enrolled
      ensures Valid() && UnenrolledFrom(s, m)
    {
      assert s in m.students by {
        assert Linked(s, m);
        assert m in multiset(s.modules);
      }
      m.RemoveStudent(s);
      s.RemoveModule(m);
      Unlinked(s, m);
    }

    /** The invariant survives unlinking a pair that was linked, all else
        unchanged. */
    twostate lemma Unlinked(new s: Student, new m: Module)
      requires old(Valid()) && unchanged(this) && old(allocated(s)) && old(allocated(m))
      requires s in StudentSet() && m in ModuleSet() && old(m in s.modules) && old(s in m.students)
      requires UnenrolledFrom(s, m) && s.TalliesMatch() && s.id == old(s.id)
      requires m.code == old(m.code) && m.discontinued == old(m.discontinued) && m.teachingStaff == old(m.teachingStaff)
      requires forall t | t in StudentSet() :: t.id == old(t.id)
      requires forall t | t in StudentSet() && t != s ::
        && t.modules == old(t.modules) && t.sameStageCredits == old(t.sameStageCredits)
        && t.lowerStageCredits == old(t.lowerStageCredits) && t.totalCredits == old(t.totalCredits)
      requires forall n | n in ModuleSet() :: n.code == old(n.code) && n.teachingStaff == old(n.teachingStaff)
      requires forall n | n in ModuleSet() && n != m ::
        && n.enrolled == old(n.enrolled) && n.students == old(n.students) && n.discontinued == old(n.discontinued)
      requires forall st | st in StaffSet() :: st.id == old(st.id) && st.teachingModules == old(st.teachingModules)
      ensures Valid()
    {
      Lists.RemoveFirstWithin(old(s.modules), m, ModuleSet());
      Lists.RemoveFirstWithin(old(m.students), s, StudentSet());
      assert IndexesOk(students, staff, modules) by {
        assert old(IndexesOk(students, staff, modules));
      }
      StudentsKept(s);
      ModulesKept(m);
      EnrolmentsRelinked(s, m, false);
      TeachingKept();
    }

    /** The change unEnrol makes to the pair on a match. */
    twostate predicate UnenrolledFrom(s: Student, m: Module)
      reads s, m
    {
      && s.modules == Lists.RemoveFirst(old(s.modules), m) && m.students == Lists.RemoveFirst(old(m.students), s)
      && m.enrolled == old(m.enrolled) - 1
      && s.sameStageCredits == old(s.sameStageCredits) - Share(m, s.stage, SameStage)
      && s.lowerStageCredits == old(s.lowerStageCredits) - Share(m, s.stage, LowerStage)
      && s.totalCredits == old(s.totalCredits) - m.credits
    }

    // ----- discontinuation -----

    /** The lookup discontinue and the per-module queries start with: the
        format is checked, then the code is looked up. */
    ghost function LocateModule(moduleCode: string): (r: Outcome)
      reads this
      ensures r.Pass? ==> HasKey(modules, moduleCode)
    {
      if !ValidModuleCode(moduleCode) then Fail(InvalidId)
      else if !HasKey(modules, moduleCode) then Fail(IdNotRecognised)
      else Pass
    }

    method FindModule(moduleCode: string) returns (r: Outcome, m: Module?)
      requires IndexesOk(students, staff, modules)
      ensures r == LocateModule(moduleCode)
      ensures r.Pass? ==> m == ModuleOf(moduleCode) && m in ModuleSet() && ItemsWithKey(modules, Some(moduleCode)) == {m}
    {
      m := null;
      r := CheckValidCode(moduleCode);
      if r.Fail? {
        return;
      }
      StrictlySortedIsSorted(modules);
      var course := Search(modules, moduleCode);
      if course.None? {
        return Fail(IdNotRecognised), null;
      }
      m := course.value;
      LookupUnique(modules, moduleCode, m);
      OnlyKeyed(modules, moduleCode, m);
    }

    /** discontinue: after the lookup, every student on the module drops it
        (once per listing, so all of its occurrences go), every teacher
        drops it, and the module is emptied and flagged. */
    method Discontinue(moduleCode: string) returns (r: Outcome)
      requires Valid()
      modifies ItemsWithKey(modules, Some(moduleCode))`teachingStaff, ItemsWithKey(modules, Some(moduleCode))`students
      modifies ItemsWithKey(modules, Some(moduleCode))`enrolled, ItemsWithKey(modules, Some(moduleCode))`discontinued
      modifies StudentSet()`modules, StudentSet()`sameStageCredits, StudentSet()`lowerStageCredits, StudentSet()`totalCredits
      modifies StaffSet()`teachingModules
      ensures Valid()
      ensures r == old(LocateModule(moduleCode))
      ensures r.Fail? ==> unchanged(ModuleSet()) && unchanged(StudentSet()) && unchanged(StaffSet())
      ensures r.Pass? ==> Withdrawn(ModuleOf(moduleCode), StudentSet(), StaffSet())
    {
      var m;
      r, m := FindModule(moduleCode);
      if r.Fail? {
        return;
      }
      Retire(m);
    }

    /** The updates discontinue makes once the module is found. */
    method Retire(m: Module)
      requires Valid() && m in ModuleSet()
      modifies m`teachingStaff, m`students, m`enrolled, m`discontinued
      modifies StudentSet()`modules, StudentSet()`sameStageCredits, StudentSet()`lowerStageCredits, StudentSet()`totalCredits
      modifies StaffSet()`teachingModules
      ensures Valid() && Withdrawn(m, StudentSet(), StaffSet())
    {
      ghost var ss, sts, ms := StudentSet(), StaffSet(), ModuleSet();
      assert ModuleOk(m, ss, sts);
      assert forall t | t in ss :: Linked(t, m);
      assert forall st | st in sts :: Teaches(st, m);
      WithdrawAll(m, ss, sts, ms);
      Discontinued(m);
    }

    /** The invariant holds again once the module is emptied and flagged
        and every list has dropped it. */
    twostate lemma Discontinued(m: Module)
      requires old(Valid()) && unchanged(this) && m in ModuleSet()
      requires Withdrawn(m, StudentSet(), StaffSet())
      requires StudentsOk(StudentSet(), ModuleSet()) && StaffMembersOk(StaffSet(), ModuleSet())
      requires forall t | t in StudentSet() :: t.id == old(t.id)
      requires forall n | n in ModuleSet() :: n.code == old(n.code)
      requires forall n | n in ModuleSet() && n != m ::
        && n.enrolled == old(n.enrolled) && n.students == old(n.students)
        && n.discontinued == old(n.discontinued) && n.teachingStaff == old(n.teachingStaff)
      requires forall st | st in StaffSet() :: st.id == old(st.id)
      ensures Valid()
    {
      assert IndexesOk(students, staff, modules) by {
        assert old(IndexesOk(students, staff, modules));
      }
      forall n | n in ModuleSet() ensures ModuleOk(n, StudentSet(), StaffSet()) {
        if n != m {
          assert old(ModuleOk(n, StudentSet(), StaffSet()));
        }
      }
      forall t, n | t in StudentSet() && n in ModuleSet() ensures Linked(t, n) {
        Lists.WithoutMultiset(old(t.modules), m);
        if n != m {
          assert old(Linked(t, n));
        }
      }
      forall st, n | st in StaffSet() && n in ModuleSet() ensures Teaches(st, n) {
        Lists.WithoutMultiset(old(st.teachingModules), m);
        if n != m {
          assert old(Teaches(st, n));
        }
      }
    }

    // ----- remove(Student) -----

    /** What remove(Student) reports: no identifier, then (the lookup
        finding nothing) the null dereference of the error message. The
        identifier's format is not checked. */
    ghost function RemoveStudentOutcome(student: Student): Outcome
      reads this, student
    {
      if student.id.None? then Fail(IdNotSet)
      else if !HasKey(students, student.id.value) then Fail(NullDereference)
      else Pass
    }

    /** remove(Student): the stored student with the same identifier is
        unenrolled from every module it lists, then taken out of the index.
        Every module drops it from its list, the other students are kept,
        and a failure changes nothing. */
    method RemoveStudentRecord(student: Student) returns (r: Outcome)
      requires Valid()
      modifies this`students
      modifies StudentSet()`modules, StudentSet()`sameStageCredits, StudentSet()`lowerStageCredits, StudentSet()`totalCredits
      modifies ModuleSet()`students, ModuleSet()`enrolled
      ensures Valid()
      ensures r == old(RemoveStudentOutcome(student))
      ensures r.Fail? ==> unchanged(this) && unchanged(StudentSet()) && unchanged(ModuleSet())
      ensures r.Pass? ==>
        var s := old(StudentOf(student.id.value));
        && students == Lists.RemoveFirst(old(students), Keyed(student.id.value, s))
        && StudentSet() == old(StudentSet()) - {s}
        && s.modules == []
        && (forall n | n in ModuleSet() :: n.students == Lists.Without(old(n.students), s))
    {
      if student.id.None? {
        return Fail(IdNotSet);
      }
      var id := student.id.value;
      StrictlySortedIsSorted(students);
      var found := Search(students, id);
      if found.None? {
        return Fail(NullDereference);
      }
      var s := found.value;
      LookupUnique(students, id, s);
      Expel(s, id);
      r := Pass;
    }

    /** The updates of remove(Student) once the student is found. */
    method Expel(s: Student, id: string)
      requires Valid() && Keyed(id, s) in students
      modifies this`students
      modifies s`modules, s`sameStageCredits, s`lowerStageCredits, s`totalCredits
      modifies ModuleSet()`students, ModuleSet()`enrolled
      ensures Valid() && s.modules == []
      ensures students == Lists.RemoveFirst(old(students), Keyed(id, s))
      ensures StudentSet() == old(StudentSet()) - {s}
      ensures forall n | n in ModuleSet() :: n.students == Lists.Without(old(n.students), s)
    {
      EmptyStudent(s, id);
      StudentUnfiled(students, staff, modules, s, id);
      SetStudents(Lists.RemoveFirst(students, Keyed(id, s)));
    }

    /** The unEnrol loop of remove(Student), over a copy of the student's
        list: each call drops the first listing left, so the list empties,
        and every module drops the student. */
    method EmptyStudent(s: Student, id: string)
      requires Valid() && Keyed(id, s) in students
      modifies s`modules, s`sameStageCredits, s`lowerStageCredits, s`totalCredits
      modifies ModuleSet()`students, ModuleSet()`enrolled
      ensures Valid() && s.modules == []
      ensures forall n | n in ModuleSet() :: n.students == Lists.Without(old(n.students), s)
    {
      var listed := s.modules;
      assert listed[0..] == listed;
      for i := 0 to |listed|
        invariant Valid() && s.modules == listed[i..]
        invariant forall n | n in ModuleSet() :: Lists.Without(n.students, s) == Lists.Without(old(n.students), s)
      {
        var n := listed[i];
        assert listed[i..] == [n] + listed[i + 1..];
        assert s in StudentSet() && n in ModuleSet();
        Lists.WithoutRemoveFirst(n.students, s);
        UnEnrolListed(s, id, n);
      }
      forall n | n in ModuleSet() ensures n.students == Lists.Without(old(n.students), s) {
        assert Linked(s, n);
        Lists.WithoutAbsent(n.students, s);
      }
    }

    /** One unEnrol call of remove(Student), for a module the student
        lists: both lookups succeed, so the first listing goes on both sides. */
    method UnEnrolListed(s: Student, id: string, n: Module)
      requires Valid() && Keyed(id, s) in students && n in s.modules
      modifies s`modules, s`sameStageCredits, s`lowerStageCredits, s`totalCredits
      modifies n`students, n`enrolled
      ensures Valid()
      ensures s.modules == Lists.RemoveFirst(old(s.modules), n)
      ensures n.students == Lists.RemoveFirst(old(n.students), s)
    {
      LookupUnique(students, id, s);
      OnlyKeyed(students, id, s);
      assert n in ModuleSet();
      var e :| e in modules && e.item == n;
      LookupUnique(modules, e.key, n);
      OnlyKeyed(modules, e.key, n);
      var removed := UnEnrol(id, n.code.value);
    }

    // ----- remove(Staff) -----

    ghost function StaffOf(staffId: string): (st: Staff)
      reads this
      requires HasKey(staff, staffId)
      ensures st in StaffSet() && Keyed(staffId, st) in staff
    {
      Lookup(staff, staffId).value
    }

    /** What remove(Staff) reports: no identifier, a malformed one, then
        (the lookup finding nothing) the null dereference of the loop. */
    ghost function RemoveStaffOutcome(member: Staff): Outcome
      reads this, member
    {
      if member.id.None? then Fail(IdNotSet)
      else if !ValidStaffId(member.id.value) then Fail(InvalidId)
      else if !HasKey(staff, member.id.value) then Fail(NullDereference)
      else Pass
    }

    /** remove(Staff): the stored staff member with the same identifier is
        taken off every module it teaches and out of the index; the result
        is the taught modules it was the only teacher of, in the order of
        its list. A failure changes nothing. */
    method RemoveStaffRecord(member: Staff) returns (r: Result<seq<Module>>)
      requires Valid()
      modifies this`staff, ModuleSet()`teachingStaff
      ensures Valid()
      ensures r.Failure? <==> old(RemoveStaffOutcome(member)).Fail?
      ensures r.Failure? ==> r.error == old(RemoveStaffOutcome(member)).error
      ensures r.Failure? ==> unchanged(this) && unchanged(ModuleSet())
      ensures r.Success? ==>
        var st := old(StaffOf(member.id.value));
        && r.value == old(SoleTaught(st.teachingModules, st))
        && staff == Lists.RemoveFirst(old(staff), Keyed(member.id.value, st))
        && StaffSet() == old(StaffSet()) - {st}
        && (forall n | n in ModuleSet() :: n.teachingStaff == Lists.Without(old(n.teachingStaff), st))
    {
      if member.id.None? {
        return Failure(IdNotSet);
      }
      var id := member.id.value;
      var valid := CheckValidStaffId(id);
      if valid.Fail? {
        return Failure(valid.error);
      }
      StrictlySortedIsSorted(staff);
      var found := Search(staff, id);
      if found.None? {
        return Failure(NullDereference);
      }
      var st := found.value;
      LookupUnique(staff, id, st);
      var noStaff := Dismiss(st, id);
      r := Success(noStaff);
    }

    /** The updates of remove(Staff) once the staff member is found. */
    method Dismiss(st: Staff, id: string) returns (noStaff: seq<Module>)
      requires Valid() && Keyed(id, st) in staff
      modifies this`staff, ModuleSet()`teachingStaff
      ensures Valid()
      ensures noStaff == old(SoleTaught(st.teachingModules, st))
      ensures staff == Lists.RemoveFirst(old(staff), Keyed(id, st))
      ensures StaffSet() == old(StaffSet()) - {st}
      ensures forall n | n in ModuleSet() :: n.teachingStaff == Lists.Without(old(n.teachingStaff), st)
    {
      assert st in StaffSet() && st.id == Some(id);
      noStaff := Unassign(st, ModuleSet());
      StaffUnfiled(st);
      SetStaff(Lists.RemoveFirst(staff, Keyed(id, st)));
    }

    /** With every module off `st`, the index without `st` keeps the
        invariant. */
    twostate lemma StaffUnfiled(new st: Staff)
      requires old(Valid()) && unchanged(this) && old(allocated(st))
      requires st.id.Some? && Keyed(st.id.value, st) in staff
      requires forall n | n in ModuleSet() ::
        && n.teachingStaff == Lists.Without(old(n.teachingStaff), st) && n.code == old(n.code)
        && n.enrolled == old(n.enrolled) && n.students == old(n.students) && n.discontinued == old(n.discontinued)
      requires forall t | t in StudentSet() ::
        && t.id == old(t.id) && t.modules == old(t.modules) && t.sameStageCredits == old(t.sameStageCredits)
        && t.lowerStageCredits == old(t.lowerStageCredits) && t.totalCredits == old(t.totalCredits)
      requires forall x | x in StaffSet() :: x.id == old(x.id) && x.teachingModules == old(x.teachingModules)
      ensures Consistent(students, Lists.RemoveFirst(staff, Keyed(st.id.value, st)), modules)
      ensures Items(Lists.RemoveFirst(staff, Keyed(st.id.value, st))) == StaffSet() - {st}
    {
      var e := Keyed(st.id.value, st);
      var after := Lists.RemoveFirst(staff, e);
      RemoveStrictlySorted(staff, e);
      RemoveItems(staff, e);
      var ss, sts, ms := StudentSet(), Items(after), ModuleSet();
      assert IndexesOk(students, staff, modules) by {
        assert old(IndexesOk(students, staff, modules));
      }
      forall x | x in after ensures x.item.id == Some(x.key) && ValidStaffId(x.key) {
        Lists.RemoveFirstIn(staff, e, x);
      }
      forall t | t in ss ensures StudentOk(t, ms) {
        assert old(StudentOk(t, ms));
      }
      forall n | n in ms ensures ModuleOk(n, ss, sts) {
        assert old(ModuleOk(n, ss, StaffSet()));
        Lists.WithoutMultiset(old(n.teachingStaff), st);
        forall x | x in n.teachingStaff ensures x in sts {
          Lists.WithoutIn(old(n.teachingStaff), st, x);
        }
        assert Lists.NoDup(n.teachingStaff) by {
          Lists.WithoutNoDup(old(n.teachingStaff), st);
        }
      }
      forall x | x in sts ensures StaffOk(x, ms) {
        assert old(StaffOk(x, ms));
      }
      forall t, n | t in ss && n in ms ensures Linked(t, n) {
        assert old(Linked(t, n));
      }
      forall x, n | x in sts && n in ms ensures Teaches(x, n) {
        assert old(Teaches(x, n));
        Lists.WithoutMultiset(old(n.teachingStaff), st);
      }
    }
    // ----- queries -----

    /** Each index files an object under one key only, so no object twice. */
    lemma IndexesDistinct()
      requires IndexesOk(students, staff, modules)
      ensures DistinctItems(students) && DistinctItems(staff) && DistinctItems(modules)
    {
      forall i, j | 0 <= i < |students| && 0 <= j < |students| && students[i].item == students[j].item
        ensures students[i].key == students[j].key
      {
        assert students[i] in students && students[j] in students;
      }
      forall i, j | 0 <= i < |staff| && 0 <= j < |staff| && staff[i].item == staff[j].item
        ensures staff[i].key == staff[j].key
      {
        assert staff[i] in staff && staff[j] in staff;
      }
      forall i, j | 0 <= i < |modules| && 0 <= j < |modules| && modules[i].item == modules[j].item
        ensures modules[i].key == modules[j].key
      {
        assert modules[i] in modules && modules[j] in modules;
      }
      KeyedDistinct(students);
      KeyedDistinct(staff);
      KeyedDistinct(modules);
    }

    /** getNumberOfStudents: the size of the index, which is the number of
        stored students. */
    method NumberOfStudents() returns (n: int)
      requires Valid()
      ensures n == |StudentSet()|
    {
      IndexesDistinct();
      DistinctItemsCard(students);
      n := |students|;
    }

    /** getNumberOfStaff: the number of stored staff members. */
    method NumberOfStaff() returns (n: int)
      requires Valid()
      ensures n == |StaffSet()|
    {
      IndexesDistinct();
      DistinctItemsCard(staff);
      n := |staff|;
    }

    /** getNumberOfModules: the number of stored modules, discontinued ones
        included. */
    method NumberOfModules() returns (n: int)
      requires Valid()
      ensures n == |ModuleSet()|
    {
      IndexesDistinct();
      DistinctItemsCard(modules);
      n := |modules|;
    }

    /** getStaff(): a fresh array of the stored staff in index order. */
    method AllStaff() returns (a: array<Staff?>)
      ensures fresh(a) && a.Length == |staff|
      ensures forall i | 0 <= i < a.Length :: a[i] == staff[i].item
    {
      a := new Staff?[|staff|];
      for i := 0 to |staff|
        invariant forall j | 0 <= j < i :: a[j] == staff[j].item
      {
        a[i] := staff[i].item;
      }
    }

    /** getStudents(): a fresh array of the stored students in index order. */
    method AllStudents() returns (a: array<Student?>)
      ensures fresh(a) && a.Length == |students|
      ensures forall i | 0 <= i < a.Length :: a[i] == students[i].item
    {
      a := new Student?[|students|];
      for i := 0 to |students|
        invariant forall j | 0 <= j < i :: a[j] == students[j].item
      {
        a[i] := students[i].item;
      }
    }

    /** getModules(): a fresh array of the stored modules in index order. */
    method AllModules() returns (a: array<Module?>)
      ensures fresh(a) && a.Length == |modules|
      ensures forall i | 0 <= i < a.Length :: a[i] == modules[i].item
    {
      a := new Module?[|modules|];
      for i := 0 to |modules|
        invariant forall j | 0 <= j < i :: a[j] == modules[j].item
      {
        a[i] := modules[i].item;
      }
    }

    /** getStaff(moduleCode): after the code's format and the lookup, a
        fresh array of the module's teaching staff in list order. */
    method ModuleStaff(moduleCode: string) returns (r: Result<array<Staff?>>)
      requires Valid()
      ensures r.Failure? <==> LocateModule(moduleCode).Fail?
      ensures r.Failure? ==> r.error == LocateModule(moduleCode).error
      ensures r.Success? ==> fresh(r.value) && r.value.Length == |ModuleOf(moduleCode).teachingStaff|
      ensures r.Success? ==> forall i | 0 <= i < r.value.Length :: r.value[i] == ModuleOf(moduleCode).teachingStaff[i]
    {
      var found, m := FindModule(moduleCode);
      if found.Fail? {
        return Failure(found.error);
      }
      var a := m.GetTeachingStaff();
      r := Success(a);
    }

    /** getStudents(moduleCode): a fresh array of the module's students. */
    method ModuleStudents(moduleCode: string) returns (r: Result<array<Student?>>)
      requires Valid()
      ensures r.Failure? <==> LocateModule(moduleCode).Fail?
      ensures r.Failure? ==> r.error == LocateModule(moduleCode).error
      ensures r.Success? ==> fresh(r.value) && r.value.Length == |ModuleOf(moduleCode).students|
      ensures r.Success? ==> forall i | 0 <= i < r.value.Length :: r.value[i] == ModuleOf(moduleCode).students[i]
    {
      var found, m := FindModule(moduleCode);
      if found.Fail? {
        return Failure(found.error);
      }
      var a := m.GetStudents();
      r := Success(a);
    }

    /** The lookup getModules(studentID) starts with: the format, then the
        index. */
    ghost function LocateStudent(studentId: string): (r: Outcome)
      reads this
      ensures r.Pass? ==> HasKey(students, studentId)
    {
      if !ValidStudentId(studentId) then Fail(InvalidId)
      else if !HasKey(students, studentId) then Fail(IdNotRecognised)
      else Pass
    }

    method FindStudent(studentId: string) returns (r: Outcome, s: Student?)
      requires IndexesOk(students, staff, modules)
      ensures r == LocateStudent(studentId)
      ensures r.Pass? ==> s == StudentOf(studentId)
    {
      s := null;
      r := CheckValidStudentId(studentId);
      if r.Fail? {
        return;
      }
      StrictlySortedIsSorted(students);
      var found := Search(students, studentId);
      if found.None? {
        return Fail(IdNotRecognised), null;
      }
      s := found.value;
      LookupUnique(students, studentId, s);
    }

    /** getModules(studentID): a fresh array of the student's modules. */
    method StudentModules(studentId: string) returns (r: Result<array<Module?>>)
      requires Valid()
      ensures r.Failure? <==> LocateStudent(studentId).Fail?
      ensures r.Failure? ==> r.error == LocateStudent(studentId).error
      ensures r.Success? ==> fresh(r.value) && r.value.Length == |StudentOf(studentId).modules|
      ensures r.Success? ==> forall i | 0 <= i < r.value.Length :: r.value[i] == StudentOf(studentId).modules[i]
    {
      var found, s := FindStudent(studentId);
      if found.Fail? {
        return Failure(found.error);
      }
      var a := s.GetEnrolledModules();
      r := Success(a);
    }

    /** getRunningModules: a fresh array of exactly the stored modules not
        discontinued, in index order. */
    method GetRunningModules() returns (a: array<Module?>)
      ensures fresh(a) && a.Length == |Running(modules)|
      ensures forall i | 0 <= i < a.Length :: a[i] == Running(modules)[i]
      ensures forall i | 0 <= i < a.Length :: a[i] in ModuleSet() && !a[i].discontinued
      ensures forall m | m in ModuleSet() && !m.discontinued :: m in a[..]
    {
      var running := RunningIn(modules);
      RunningSpec(modules);
      a := ModuleArray(running);
      forall m | m in ModuleSet() && !m.discontinued ensures m in a[..] {
        var i :| 0 <= i < |running| && running[i] == m;
        assert a[..][i] == m;
      }
    }

    /** getAvailableModules: a fresh array of exactly the stored modules
        neither discontinued nor at capacity, in index order. */
    method GetAvailableModules() returns (a: array<Module?>)
      ensures fresh(a) && a.Length == |Available(modules)|
      ensures forall i | 0 <= i < a.Length :: a[i] == Available(modules)[i]
      ensures forall i | 0 <= i < a.Length :: a[i] in ModuleSet() && !a[i].discontinued && !a[i].AtCapacity()
      ensures forall m | m in ModuleSet() && !m.discontinued && !m.AtCapacity() :: m in a[..]
    {
      var available := AvailableIn(modules);
      AvailableSpec(modules);
      a := ModuleArray(available);
      forall m | m in ModuleSet() && !m.discontinued && !m.AtCapacity() ensures m in a[..] {
        var i :| 0 <= i < |available| && available[i] == m;
        assert a[..][i] == m;
      }
    }

    /** getNumberOfFullyAllocatedStudents: the number of stored students
        with exactly 120 credits. */
    method NumberOfFullyAllocatedStudents() returns (n: int)
      requires Valid()
      ensures n == |FullSet(students)|
    {
      n := CountFullIn(students);
      IndexesDistinct();
      CountFullSet(students);
    }

    /** getNumberOfModulesAtCapacity: the number of stored modules whose
        count equals their capacity. */
    method NumberOfModulesAtCapacity() returns (n: int)
      requires Valid()
      ensures n == |AtCapacitySet(modules)|
    {
      n := CountAtCapacityIn(modules);
      IndexesDistinct();
      CountAtCapacitySet(modules);
    }

  }

  /** Two distinct objects carrying the identifier of the only stored
      staff member resolve to that member twice. */
  lemma TwinsResolve(first: Staff, second: Staff, stored: Staff, index: seq<Keyed<Staff>>)
    requires first != second && first.id.Some? && second.id == first.id
    requires index == [Keyed(first.id.value, stored)]
    ensures Lists.NoDup([first, second])
    ensures Resolve([first, second], index) == Success([stored, stored])
    ensures !Lists.NoDup([stored, stored])
  {
    var list := [first, second];
    assert Lookup(index, first.id.value) == Some(stored);
    assert HasKey(index, first.id.value);
    ResolveSpec(list, index);
    var r := Resolve(list, index).value;
    assert Lookup(index, list[0].id.value) == Some(r[0]) && Lookup(index, list[1].id.value) == Some(r[1]);
    assert r == [stored, stored];
    assert [stored, stored][0] == [stored, stored][1];
  }

  /** A manager whose only stored staff member is `stored`, and two
      further objects carrying its identifier. */
  method StoreTwins() returns (manager: AllocationManager, first: Staff, second: Staff, ghost stored: Staff)
    ensures fresh(manager) && fresh(first) && fresh(second) && fresh(stored)
    ensures manager.Valid() && manager.modules == [] && first != second
    ensures first.id.Some? && second.id == first.id && manager.staff == [Keyed(first.id.value, stored)]
  {
    manager := new AllocationManager();
    assert 1 in [1];
    var id;
    id, stored := manager.AddStaff("Ada", "Lovelace", [1]);
    Lists.SingletonMultiset(manager.staff, Keyed(id, stored));
    first := Twin(id);
    second := Twin(id);
  }

  /** A new staff member, held by no manager, carrying `id`. */
  method Twin(id: string) returns (x: Staff)
    requires ValidStaffId(id)
    ensures fresh(x) && x.id == Some(id)
  {
    x := new Staff("Ada", "Lovelace");
    var _ := x.SetId(id);
  }

  /** The input that shows addModule's late duplicate check: two distinct
      objects carrying the identifier of a stored staff member pass the
      pairwise scan and both resolve to that member, so module.addStaff
      refuses the second after the member already lists the new module,
      which is never filed. */
  method RepeatedStaffWitness() returns (manager: AllocationManager, r: Result<string>)
    ensures r == Failure(DuplicateStaff) && !manager.Valid()
  {
    var first, second;
    ghost var stored;
    manager, first, second, stored := StoreTwins();
    TwinsResolve(first, second, stored, manager.staff);
    assert manager.BuildOutcome(15, 1, 10, [first, second]) == Pass;
    assert manager.AddModuleOutcome(15, 1, 10, [first, second]) == Fail(DuplicateStaff);
    assert 1 in [1] && !HasKey(manager.modules, ModuleCodeOf(1));
    ghost var lost;
    r, lost := manager.AddModuleAsWritten("Logic", 15, 1, 10, [first, second], [1]);
  }
}
