/** The three entity classes the allocation engine links together: students
    (src/UniversityStudent.java), modules (src/UniversityModule.java) and
    staff members (src/UniversityStaff.java). They refer to one another, so
    they share one module. */
module Entities {
  import opened Failures
  import opened Identifiers
  import Lists

  /** Stages run from 1 to 4; a module is worth 0 to 120 credits. */
  type Stage = x: int | 1 <= x <= 4 witness 1
  type Credits = x: int | 0 <= x <= 120 witness 0

  predicate IsStage(x: int) { 1 <= x <= 4 }
  predicate IsCredits(x: int) { 0 <= x <= 120 }

  // ----- credit tallies -----

  /** The three credit tallies a student keeps. */
  datatype Tally = SameStage | LowerStage | Total

  /** What one module adds to a tally of a student at `stage`: the same-stage
      tally takes its credits when the stages are equal, the lower-stage
      tally when they differ, and the total always. */
  function Share(m: Module, stage: int, tally: Tally): nat {
    match tally
    case SameStage => if m.stage == stage then m.credits else 0
    case LowerStage => if m.stage != stage then m.credits else 0
    case Total => m.credits
  }

  /** The value a tally should have for a list of modules. */
  function Tallied(ms: seq<Module>, stage: int, tally: Tally): nat {
    if ms == [] then 0 else Share(ms[0], stage, tally) + Tallied(ms[1..], stage, tally)
  }

  lemma {:induction false} TalliedAppend(ms: seq<Module>, m: Module, stage: int, tally: Tally)
    ensures Tallied(ms + [m], stage, tally) == Tallied(ms, stage, tally) + Share(m, stage, tally)
  {
    if ms != [] {
      assert (ms + [m])[1..] == ms[1..] + [m];
      TalliedAppend(ms[1..], m, stage, tally);
    }
  }

  lemma {:induction false} TalliedRemoveFirst(ms: seq<Module>, m: Module, stage: int, tally: Tally)
    requires m in ms
    ensures Tallied(Lists.RemoveFirst(ms, m), stage, tally) + Share(m, stage, tally) == Tallied(ms, stage, tally)
  {
    if ms[0] != m {
      var r := Lists.RemoveFirst(ms[1..], m);
      assert ([ms[0]] + r)[1..] == r;
      TalliedRemoveFirst(ms[1..], m, stage, tally);
    }
  }

  /** The same-stage and lower-stage tallies add up to the total. */
  lemma {:induction false} TalliedSplit(ms: seq<Module>, stage: int)
    ensures Tallied(ms, stage, SameStage) + Tallied(ms, stage, LowerStage) == Tallied(ms, stage, Total)
  {
    if ms != [] {
      TalliedSplit(ms[1..], stage);
    }
  }

  /** A tally depends only on which modules are listed, how often. */
  lemma {:induction false} TalliedMultiset(ms: seq<Module>, ns: seq<Module>, stage: int, tally: Tally)
    requires multiset(ms) == multiset(ns)
    ensures Tallied(ms, stage, tally) == Tallied(ns, stage, tally)
    decreases |ms|
  {
    if ms != [] {
      var m := ms[0];
      assert m in multiset(ns);
      Lists.RemoveFirstMultiset(ns, m);
      assert ms == [m] + ms[1..];
      assert multiset(ms[1..]) == multiset(Lists.RemoveFirst(ns, m));
      TalliedMultiset(ms[1..], Lists.RemoveFirst(ns, m), stage, tally);
      TalliedRemoveFirst(ns, m, stage, tally);
    }
  }

  // ----- students -----

  class Student {
    const forename: string
    const surname: string
    const stage: Stage
    var id: Option<string>
    var modules: seq<Module>
    var sameStageCredits: int
    var lowerStageCredits: int
    var totalCredits: int

    /** Each tally holds the credits of the listed modules it counts; then
        the total is the sum of the other two. */
    predicate TalliesMatch(): (b: bool)
      reads this`modules, this`sameStageCredits, this`lowerStageCredits, this`totalCredits
      ensures b ==> totalCredits == sameStageCredits + lowerStageCredits
    {
      TalliedSplit(modules, stage);
      && sameStageCredits == Tallied(modules, stage, SameStage)
      && lowerStageCredits == Tallied(modules, stage, LowerStage)
      && totalCredits == Tallied(modules, stage, Total)
    }

    constructor (forename: string, surname: string, stage: Stage)
      ensures this.forename == forename && this.surname == surname && this.stage == stage
      ensures id == None && modules == [] && TalliesMatch() && totalCredits == 0
    {
      this.forename := forename;
      this.surname := surname;
      this.stage := stage;
      id := None;
      modules := [];
      sameStageCredits, lowerStageCredits, totalCredits := 0, 0, 0;
    }

    /** The constructor without an ID: a stage outside 1..4 is refused. */
    static method New(forename: string, surname: string, stage: int) returns (r: Result<Student>)
      ensures r.Success? <==> IsStage(stage)
      ensures r.Failure? ==> r.error == InvalidStage
      ensures r.Success? ==> fresh(r.value) && r.value.stage == stage && r.value.id == None
      ensures r.Success? ==> r.value.forename == forename && r.value.surname == surname
      ensures r.Success? ==> r.value.modules == [] && r.value.TalliesMatch() && r.value.totalCredits == 0
    {
      if stage < 1 || stage > 4 {
        return Failure(InvalidStage);
      }
      var s := new Student(forename, surname, stage);
      return Success(s);
    }

    /** The constructor with an ID: the stage is checked, then the ID. */
    static method NewWithId(forename: string, surname: string, stage: int, id: string) returns (r: Result<Student>)
      ensures r.Success? <==> IsStage(stage) && ValidStudentId(id)
      ensures r.Failure? ==> r.error == if IsStage(stage) then InvalidId else InvalidStage
      ensures r.Success? ==> fresh(r.value) && r.value.stage == stage && r.value.id == Some(id)
      ensures r.Success? ==> r.value.modules == [] && r.value.TalliesMatch() && r.value.totalCredits == 0
    {
      if stage < 1 || stage > 4 {
        return Failure(InvalidStage);
      }
      var s := new Student(forename, surname, stage);
      var outcome := s.SetId(id);
      if outcome.Fail? {
        return Failure(outcome.error);
      }
      return Success(s);
    }

    /** setID: the ID is set at most once, and only to a valid one. */
    method SetId(newId: string) returns (r: Outcome)
      modifies this`id
      ensures old(id).Some? ==> r == Fail(IdAlreadySet)
      ensures old(id).None? ==> r == CheckValidStudentId(newId)
      ensures id == if old(id).None? && r.Pass? then Some(newId) else old(id)
    {
      if id.Some? {
        return Fail(IdAlreadySet);
      }
      r := CheckValidStudentId(newId);
      if r.Pass? {
        id := Some(newId);
      }
    }

    /** getEnrolledModules: a fresh array holding the list in order. */
    method GetEnrolledModules() returns (a: array<Module?>)
      ensures fresh(a) && a.Length == |modules|
      ensures forall i :: 0 <= i < a.Length ==> a[i] == modules[i]
    {
      a := new Module?[|modules|];
      for i := 0 to |modules|
        invariant forall j :: 0 <= j < i ==> a[j] == modules[j]
      {
        a[i] := modules[i];
      }
    }

    /** assignModule: append the module and add its credits to the tallies. */
    method AssignModule(m: Module)
      modifies this`modules, this`sameStageCredits, this`lowerStageCredits, this`totalCredits
      ensures modules == old(modules) + [m]
      ensures sameStageCredits == old(sameStageCredits) + Share(m, stage, SameStage)
      ensures lowerStageCredits == old(lowerStageCredits) + Share(m, stage, LowerStage)
      ensures totalCredits == old(totalCredits) + m.credits
      ensures old(TalliesMatch()) ==> TalliesMatch()
    {
      modules := modules + [m];
      if m.stage == stage {
        sameStageCredits := sameStageCredits + m.credits;
      } else {
        lowerStageCredits := lowerStageCredits + m.credits;
      }
      totalCredits := totalCredits + m.credits;
      TalliedAppend(old(modules), m, stage, SameStage);
      TalliedAppend(old(modules), m, stage, LowerStage);
      TalliedAppend(old(modules), m, stage, Total);
    }

    /** removeModule: drop the first occurrence and subtract the credits,
        whether or not the module was on the list. */
    method RemoveModule(m: Module)
      modifies this`modules, this`sameStageCredits, this`lowerStageCredits, this`totalCredits
      ensures modules == Lists.RemoveFirst(old(modules), m)
      ensures sameStageCredits == old(sameStageCredits) - Share(m, stage, SameStage)
      ensures lowerStageCredits == old(lowerStageCredits) - Share(m, stage, LowerStage)
      ensures totalCredits == old(totalCredits) - m.credits
      ensures old(TalliesMatch()) && m in old(modules) ==> TalliesMatch()
    {
      modules := Lists.RemoveFirst(modules, m);
      if m.stage == stage {
        sameStageCredits := sameStageCredits - m.credits;
      } else {
        lowerStageCredits := lowerStageCredits - m.credits;
      }
      totalCredits := totalCredits - m.credits;
      if m in old(modules) {
        TalliedRemoveFirst(old(modules), m, stage, SameStage);
        TalliedRemoveFirst(old(modules), m, stage, LowerStage);
        TalliedRemoveFirst(old(modules), m, stage, Total);
      }
    }
  }

  /** assignModule followed by removeModule of the same module gives back
      the tallies and the multiset of modules. */
  method AssignThenRemove(s: Student, m: Module)
    modifies s
    ensures multiset(s.modules) == multiset(old(s.modules))
    ensures s.sameStageCredits == old(s.sameStageCredits)
    ensures s.lowerStageCredits == old(s.lowerStageCredits)
    ensures s.totalCredits == old(s.totalCredits)
    ensures old(s.TalliesMatch()) ==> s.TalliesMatch()
  {
    s.AssignModule(m);
    s.RemoveModule(m);
    Lists.RemoveFirstAfterAppend(old(s.modules), m);
  }

  // ----- modules -----

  /** The array overload of addStaff after its discontinued check: each
      staff member in turn is refused for a missing ID or for being on the
      list already (including one added earlier in the same call), else
      appended; the first refusal ends the call and keeps what was added. */
  ghost function AddEach(current: seq<Staff>, staff: seq<Staff>): (Outcome, seq<Staff>)
    reads staff
    decreases |staff|
  {
    if staff == [] then (Pass, current)
    else if staff[0].id.None? then (Fail(IdNotSet), current)
    else if staff[0] in current then (Fail(DuplicateStaff), current)
    else AddEach(current + [staff[0]], staff[1..])
  }

  /** The list AddEach leaves is the old list followed by a prefix of the
      staff given, still without duplicates; it succeeds exactly when every
      staff member has an ID and old list and staff together have no
      duplicate, and then all of them were added. */
  lemma {:induction false} AddEachSpec(current: seq<Staff>, staff: seq<Staff>)
    requires Lists.NoDup(current)
    ensures var (r, result) := AddEach(current, staff);
      && |current| <= |result| <= |current| + |staff|
      && result == current + staff[..|result| - |current|]
      && Lists.NoDup(result)
      && (r.Pass? <==> (forall s | s in staff :: s.id.Some?) && Lists.NoDup(current + staff))
      && (r.Pass? ==> result == current + staff)
    decreases |staff|
  {
    if staff == [] {
      assert current + staff == current;
    } else if staff[0].id.None? {
      assert staff[0] in staff;
    } else if staff[0] in current {
      var k :| 0 <= k < |current| && current[k] == staff[0];
      assert (current + staff)[k] == (current + staff)[|current|];
    } else {
      var next := current + [staff[0]];
      assert Lists.NoDup(next);
      AddEachSpec(next, staff[1..]);
      var (r, result) := AddEach(next, staff[1..]);
      assert current + staff == next + staff[1..];
      assert next + staff[1..][..|result| - |next|] == current + staff[..|result| - |current|];
      assert (forall s | s in staff :: s.id.Some?) <==> (forall s | s in staff[1..] :: s.id.Some?) by {
        assert staff == [staff[0]] + staff[1..];
      }
    }
  }

  class Module {
    const name: string
    const credits: Credits
    const stage: Stage
    const capacity: int
    var code: Option<string>
    var teachingStaff: seq<Staff>
    var students: seq<Student>
    var enrolled: int
    var discontinued: bool

    constructor (name: string, credits: Credits, stage: Stage, capacity: int)
      ensures this.name == name && this.credits == credits && this.stage == stage && this.capacity == capacity
      ensures code == None && teachingStaff == [] && students == [] && enrolled == 0 && !discontinued
    {
      this.name := name;
      this.credits := credits;
      this.stage := stage;
      this.capacity := capacity;
      code := None;
      teachingStaff := [];
      students := [];
      enrolled := 0;
      discontinued := false;
    }

    /** The constructor without a code: credits outside 0..120 are refused
        first, then a stage outside 1..4; the capacity is not checked. */
    static method New(name: string, credits: int, stage: int, capacity: int) returns (r: Result<Module>)
      ensures r.Success? <==> IsCredits(credits) && IsStage(stage)
      ensures r.Failure? ==> r.error == if IsCredits(credits) then InvalidStage else InvalidCredits
      ensures r.Success? ==> fresh(r.value) && r.value.credits == credits && r.value.stage == stage
      ensures r.Success? ==> r.value.name == name && r.value.capacity == capacity && r.value.code == None
      ensures r.Success? ==> r.value.teachingStaff == [] && r.value.students == []
      ensures r.Success? ==> r.value.enrolled == 0 && !r.value.discontinued
    {
      if credits < 0 || credits > 120 {
        return Failure(InvalidCredits);
      }
      if stage < 1 || stage > 4 {
        return Failure(InvalidStage);
      }
      var m := new Module(name, credits, stage, capacity);
      return Success(m);
    }

    /** The constructor with a code: credits, then stage, then the code. */
    static method NewWithCode(name: string, credits: int, stage: int, capacity: int, code: string)
      returns (r: Result<Module>)
      ensures r.Success? <==> IsCredits(credits) && IsStage(stage) && ValidModuleCode(code)
      ensures r.Failure? ==>
        r.error == (if !IsCredits(credits) then InvalidCredits else if !IsStage(stage) then InvalidStage else InvalidId)
      ensures r.Success? ==> fresh(r.value) && r.value.credits == credits && r.value.stage == stage
      ensures r.Success? ==> r.value.name == name && r.value.capacity == capacity && r.value.code == Some(code)
      ensures r.Success? ==> r.value.teachingStaff == [] && r.value.students == []
      ensures r.Success? ==> r.value.enrolled == 0 && !r.value.discontinued
    {
      r := New(name, credits, stage, capacity);
      if r.Success? {
        var outcome := r.value.SetCode(code);
        if outcome.Fail? {
          r := Failure(outcome.error);
        }
      }
    }

    /** setCode: the code is set at most once, and only to a valid one. */
    method SetCode(newCode: string) returns (r: Outcome)
      modifies this`code
      ensures old(code).Some? ==> r == Fail(IdAlreadySet)
      ensures old(code).None? ==> r == CheckValidCode(newCode)
      ensures code == if old(code).None? && r.Pass? then Some(newCode) else old(code)
    {
      if code.Some? {
        return Fail(IdAlreadySet);
      }
      r := CheckValidCode(newCode);
      if r.Pass? {
        code := Some(newCode);
      }
    }

    /** isAtCapacity compares for equality, not "at least": a module
        enrolled past its capacity is not at capacity. */
    predicate AtCapacity(): (r: bool)
      reads this`enrolled
      ensures enrolled > capacity ==> !r
    {
      enrolled == capacity
    }

    /** discontinue: drop all links, reset the count and set the flag. The
        new state does not depend on the old one, so a second call changes
        nothing. */
    method Discontinue()
      modifies this`teachingStaff, this`students, this`enrolled, this`discontinued
      ensures teachingStaff == [] && students == [] && enrolled == 0 && discontinued
    {
      teachingStaff := [];
      students := [];
      enrolled := 0;
      discontinued := true;
    }

    /** addStaff(Staff): refused when discontinued, then when the staff
        member has no ID, then when that same object is on the list already;
        otherwise appended. */
    method AddStaff(s: Staff) returns (r: Outcome)
      modifies this`teachingStaff
      ensures r == if discontinued then Fail(ModuleDiscontinued)
                   else if s.id.None? then Fail(IdNotSet)
                   else if s in old(teachingStaff) then Fail(DuplicateStaff)
                   else Pass
      ensures teachingStaff == if r.Pass? then old(teachingStaff) + [s] else old(teachingStaff)
      ensures old(Lists.NoDup(teachingStaff)) ==> Lists.NoDup(teachingStaff)
    {
      if discontinued {
        return Fail(ModuleDiscontinued);
      }
      if s.id.None? {
        return Fail(IdNotSet);
      }
      for i := 0 to |teachingStaff|
        invariant s !in teachingStaff[..i]
      {
        if s == teachingStaff[i] {
          return Fail(DuplicateStaff);
        }
      }
      assert teachingStaff[..|teachingStaff|] == teachingStaff;
      teachingStaff := teachingStaff + [s];
      r := Pass;
    }

    /** addStaff(Staff[]): refused when discontinued, then each element as
        AddEach describes. */
    method AddStaffList(staff: seq<Staff>) returns (r: Outcome)
      modifies this`teachingStaff
      ensures discontinued ==> r == Fail(ModuleDiscontinued) && teachingStaff == old(teachingStaff)
      ensures !discontinued ==> (r, teachingStaff) == old(AddEach(teachingStaff, staff))
    {
      if discontinued {
        return Fail(ModuleDiscontinued);
      }
      for k := 0 to |staff|
        invariant AddEach(old(teachingStaff), staff) == AddEach(teachingStaff, staff[k..])
      {
        var s := staff[k];
        assert staff[k..][0] == s && staff[k..][1..] == staff[k + 1..];
        if s.id.None? {
          return Fail(IdNotSet);
        }
        for i := 0 to |teachingStaff|
          invariant s !in teachingStaff[..i]
        {
          if s == teachingStaff[i] {
            return Fail(DuplicateStaff);
          }
        }
        assert teachingStaff[..|teachingStaff|] == teachingStaff;
        teachingStaff := teachingStaff + [s];
      }
      return Pass;
    }

    /** removeStaff: drop the staff member, refused when not on the list. */
    method RemoveStaff(s: Staff) returns (r: Outcome)
      modifies this`teachingStaff
      ensures teachingStaff == Lists.RemoveFirst(old(teachingStaff), s)
      ensures r == if s in old(teachingStaff) then Pass else Fail(StaffNotInvolved)
    {
      var found := s in teachingStaff;
      teachingStaff := Lists.RemoveFirst(teachingStaff, s);
      r := if found then Pass else Fail(StaffNotInvolved);
    }

    /** addStudent: append and count, with no check. */
    method AddStudent(s: Student)
      modifies this`students, this`enrolled
      ensures students == old(students) + [s] && enrolled == old(enrolled) + 1
    {
      students := students + [s];
      enrolled := enrolled + 1;
    }

    /** removeStudent: drop the first occurrence and decrement the count,
        whether or not the student was on the list. */
    method RemoveStudent(s: Student)
      modifies this`students, this`enrolled
      ensures students == Lists.RemoveFirst(old(students), s) && enrolled == old(enrolled) - 1
    {
      students := Lists.RemoveFirst(students, s);
      enrolled := enrolled - 1;
    }

    /** getTeachingStaff: a fresh array holding the list in order. */
    method GetTeachingStaff() returns (a: array<Staff?>)
      ensures fresh(a) && a.Length == |teachingStaff|
      ensures forall i :: 0 <= i < a.Length ==> a[i] == teachingStaff[i]
    {
      a := new Staff?[|teachingStaff|];
      for i := 0 to |teachingStaff|
        invariant forall j :: 0 <= j < i ==> a[j] == teachingStaff[j]
      {
        a[i] := teachingStaff[i];
      }
    }

    /** getStudents: a fresh array holding the list in order. */
    method GetStudents() returns (a: array<Student?>)
      ensures fresh(a) && a.Length == |students|
      ensures forall i :: 0 <= i < a.Length ==> a[i] == students[i]
    {
      a := new Student?[|students|];
      for i := 0 to |students|
        invariant forall j :: 0 <= j < i ==> a[j] == students[j]
      {
        a[i] := students[i];
      }
    }
  }

  // ----- staff -----

  class Staff {
    const forename: string
    const surname: string
    var id: Option<string>
    var teachingModules: seq<Module>

    constructor (forename: string, surname: string)
      ensures this.forename == forename && this.surname == surname
      ensures id == None && teachingModules == []
    {
      this.forename := forename;
      this.surname := surname;
      id := None;
      teachingModules := [];
    }

    /** The constructor with an ID: refused when the ID is not valid. */
    static method NewWithId(forename: string, surname: string, id: string) returns (r: Result<Staff>)
      ensures r.Success? <==> ValidStaffId(id)
      ensures r.Failure? ==> r.error == InvalidId
      ensures r.Success? ==> fresh(r.value) && r.value.id == Some(id) && r.value.teachingModules == []
      ensures r.Success? ==> r.value.forename == forename && r.value.surname == surname
    {
      var s := new Staff(forename, surname);
      var outcome := s.SetId(id);
      if outcome.Fail? {
        return Failure(outcome.error);
      }
      return Success(s);
    }

    /** setID: the ID is set at most once, and only to a valid one. */
    method SetId(newId: string) returns (r: Outcome)
      modifies this`id
      ensures old(id).Some? ==> r == Fail(IdAlreadySet)
      ensures old(id).None? ==> r == CheckValidStaffId(newId)
      ensures id == if old(id).None? && r.Pass? then Some(newId) else old(id)
    {
      if id.Some? {
        return Fail(IdAlreadySet);
      }
      r := CheckValidStaffId(newId);
      if r.Pass? {
        id := Some(newId);
      }
    }

    /** addTeachingModule: append, with no duplicate check. */
    method AddTeachingModule(m: Module)
      modifies this`teachingModules
      ensures teachingModules == old(teachingModules) + [m]
    {
      teachingModules := teachingModules + [m];
    }

    /** removeTeachingModule: drop the first occurrence; nothing happens
        when the module is not on the list. */
    method RemoveTeachingModule(m: Module)
      modifies this`teachingModules
      ensures teachingModules == Lists.RemoveFirst(old(teachingModules), m)
    {
      teachingModules := Lists.RemoveFirst(teachingModules, m);
    }

    /** getTeachingModules: a fresh array holding the list in order. */
    method GetTeachingModules() returns (a: array<Module?>)
      ensures fresh(a) && a.Length == |teachingModules|
      ensures forall i :: 0 <= i < a.Length ==> a[i] == teachingModules[i]
    {
      a := new Module?[|teachingModules|];
      for i := 0 to |teachingModules|
        invariant forall j :: 0 <= j < i ==> a[j] == teachingModules[j]
      {
        a[i] := teachingModules[i];
      }
    }
  }
}
