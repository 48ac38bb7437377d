# University allocation engine in Dafny

This project models the allocation engine of a university management system
(`src/UniversityAllocationManager.java`) and the three entity classes it
drives: modules (`src/UniversityModule.java`), students
(`src/UniversityStudent.java`) and staff members (`src/UniversityStaff.java`).

The engine keeps three indexes (students, staff and modules). Each index is
a list of references kept in ascending `String.compareTo` order of the
entity's identifier. It is searched by binary search and extended by binary
insertion.

On top of the indexes the engine:

- adds students, staff and modules under fresh random identifiers;
- enrols and unenrols students, keeping the link on both sides;
- discontinues a module and unlinks it everywhere;
- removes staff members and students;
- answers filter and count queries.

The entities keep their own lists and counters:

- a student keeps its modules and three credit tallies;
- a module keeps its teaching staff, its students, an enrolment count, a
  capacity and a discontinued flag;
- a staff member keeps its teaching modules.

Layout, one Dafny module per file:

| file | module | contents |
|---|---|---|
| `failures.dfy` | `Failures` | the exception classes as one `Error` datatype; `Outcome` (a `void` method that may throw), `Result` and `Option` (a nullable reference) |
| `lists.dfy` | `Lists` | the engine's `ObjectArrayList` as a `seq`: `remove(obj)` drops the first element identical to `obj` |
| `lexicographic.dfy` | `Lexicographic` | `String.compareTo` and the order laws the binary search relies on |
| `sorted_index.dfy` | `SortedIndex` | one generic model of the three binary searches, the three binary insertions and the retry loop of the identifier generators |
| `identifiers.dfy` | `Identifiers` | `Integer.parseInt`/`Long.parseLong` on ASCII; the three identifier formats; rendering and zero padding, with their round trips |
| `entities.dfy` | `Entities` | the classes `Student`, `Module` and `Staff`, with their set-once identifiers, list updates and credit arithmetic |
| `queries.dfy` | `Queries` | reference definitions of the running and available filters and of the two counts, and what they mean |
| `manager.dfy` | `Allocation` | the class `AllocationManager` and its invariant `Valid()`, plus the loops of the engine as module-level methods |

`AllocationManager.Valid()` is the invariant every public operation keeps:

- each index is strictly sorted;
- each entry is filed under its entity's own identifier, which has a valid
  format;
- every student's tallies are the sums over its module list, with at most 120
  credits in all and at most 30 from lower stages;
- every module's count is the length of its student list and stays within a
  non-negative capacity;
- a discontinued module has no links;
- no module lists a staff member twice;
- enrolment and teaching are recorded equally often on both sides;
- only stored entities are linked.

Entity identity is reference identity, as in the Java code, which overrides
no `equals`.

The random draws of the three generators are a parameter: a sequence of
candidate numbers, with the requirement that one of them renders to an unused
identifier. The model takes the first unused one, as the retry recursion
does.

Where the code and the interface documentation in `src/AllocationManager.java`
disagree, the model follows the code:

- `enrol` never checks whether the student is already on the module. A
  repeated enrolment is accepted and the link is recorded twice, on both
  sides. This is why `Linked` counts multiplicities.
- `remove(Student)` dereferences the null lookup result when the student is
  absent (line 835 of the manager). `remove(Staff)` does the same one step
  later (line 802). Both are modelled as the error `NullDereference`, with
  nothing changed, rather than the documented `IDNotRecognisedException`.
- `remove(Student)` never checks the identifier's format.
- `addModule(Module)` checks neither the capacity nor the staff. The copy it
  files has no staff.
- `addModule` can throw `DuplicateStaffException` after it has linked a staff
  member (see Findings). The documentation at `src/AllocationManager.java:7-9`
  says a declared exception leaves the store unchanged.

## Model

| member | source | states |
|---|---|---|
| Lists.RemoveFirst | src/UniversityModule.java:258-264 | `remove(obj)` on a list: one element shorter when `obj` is listed, the same list otherwise |
| Lists.RemoveFirstMultiset | src/UniversityModule.java:281-284 | removing drops exactly one occurrence: the multiset loses `{obj}` and nothing else |
| Lists.RemoveFirstAfterAppend | src/UniversityStudent.java:180-207 | `add` then `remove` of the same element gives back the same multiset |
| Lists.RemoveOnce | src/UniversityAllocationManager.java:802-812 | removing a member listed exactly once is filtering it out, and leaves the list empty exactly when it was the only member |
| Lists.FindRepeat | src/UniversityAllocationManager.java:351-358 | the pairwise scan by identity finds a repeat exactly when the array has two equal references |
| Lexicographic.CompareTo | src/UniversityAllocationManager.java:51-60 | `String.compareTo`: when one key is a prefix of the other, the result is the difference of the lengths |
| Lexicographic.CompareToFirstDifference | src/UniversityAllocationManager.java:51-60 | where two keys first differ at a position both have, `compareTo` is the difference of the characters there |
| Lexicographic.CompareToZero | src/UniversityAllocationManager.java:51-53 | `compareTo` is 0 exactly on equal strings |
| Lexicographic.CompareToAntisymmetric | src/UniversityAllocationManager.java:51-60 | `a.compareTo(b)` is the negation of `b.compareTo(a)`, so the three branches of the search are exclusive |
| Lexicographic.LessTransitive | src/UniversityAllocationManager.java:54-59 | the order the indexes are sorted by is transitive |
| Lexicographic.LessTotal | src/UniversityAllocationManager.java:51-59 | any two keys are equal or ordered one way |
| SortedIndex.Lookup | src/UniversityAllocationManager.java:42-62 | reference lookup: an entry with the key when there is one, none exactly when no entry has the key |
| SortedIndex.Search | src/UniversityAllocationManager.java:42-62 | binary search on a sorted index returns an entry filed under the key, and null exactly when none is |
| SortedIndex.LookupUnique | src/UniversityAllocationManager.java:71-91 | in a strictly sorted index the search result is the one entry with that key |
| SortedIndex.InsertionPoint | src/UniversityAllocationManager.java:127-152 | the bisection stops at a point where no earlier key is above the new key and no later one is below it |
| SortedIndex.Insert | src/UniversityAllocationManager.java:127-166 | the result is the old list with the new entry spliced at that point; it stays sorted, and strictly sorted when the key is new |
| SortedIndex.SpliceStrictlySorted | src/UniversityAllocationManager.java:154-163 | splicing a fresh key at the insertion point keeps the index strictly sorted |
| SortedIndex.Add | src/UniversityAllocationManager.java:173-212 | inserting a fresh key adds exactly one entry and one reference, and the index stays strictly sorted |
| SortedIndex.FirstUnused | src/UniversityAllocationManager.java:331-334 | the retry picks the first candidate not yet used as a key; every earlier candidate is in use |
| SortedIndex.RemoveStrictlySorted | src/UniversityAllocationManager.java:819 | `remove` on an index keeps it strictly sorted |
| SortedIndex.RemoveItems | src/UniversityAllocationManager.java:842 | removing the one entry filed for an object drops exactly that object from the stored references |
| Identifiers.ParseIntAccepts | src/UniversityModule.java:66-83 | within the width of the format, `parseInt` succeeds exactly on an optional sign followed by at least one digit |
| Identifiers.CheckValidStudentId | src/UniversityStudent.java:61-76 | passes exactly on 10 characters that `Long.parseLong` reads, and fails with InvalidID otherwise |
| Identifiers.CheckValidStaffId | src/UniversityStaff.java:49-66 | passes exactly on 5 characters that `Integer.parseInt(id, 16)` reads, with hex digits in either case, and fails with InvalidID otherwise |
| Identifiers.CheckValidCode | src/UniversityModule.java:66-83 | passes exactly on 5 characters that `Integer.parseInt` reads, so "-1234" passes, and fails with InvalidID otherwise |
| Identifiers.ToDigitsValue | src/UniversityAllocationManager.java:438 | `Integer.toString` / `toHexString` renders only digits, and they read back as the number |
| Identifiers.PadLeft | src/UniversityAllocationManager.java:440-444 | the padding loop computes `Padded`: zeros prepended up to the width |
| Identifiers.PaddedShape | src/UniversityAllocationManager.java:440-444 | the padded string has the target width (or keeps a longer one), ends with the original and begins with zeros only |
| Identifiers.PaddedValue | src/UniversityAllocationManager.java:325-329 | padding with zeros keeps the numeric value |
| Identifiers.ModuleCodeRoundTrip | src/UniversityAllocationManager.java:437-453 | a generated code is valid and parses back to the number drawn |
| Identifiers.StaffIdRoundTrip | src/UniversityAllocationManager.java:505-521 | a generated staff ID is valid and parses back, in base 16, to the number drawn |
| Identifiers.StudentIdRoundTrip | src/UniversityAllocationManager.java:321-339 | a generated student ID is valid and parses back to the two numbers' decimal concatenation |
| Identifiers.FormatModuleCode | src/UniversityAllocationManager.java:438-444 | rendering and padding give the module code of the draw, which is valid |
| Identifiers.FormatStaffId | src/UniversityAllocationManager.java:506-512 | rendering and padding give the staff ID of the draw, which is valid |
| Identifiers.FormatStudentId | src/UniversityAllocationManager.java:322-330 | rendering, concatenating and padding give the student ID of the draws, which is valid |
| Entities.TalliedAppend | src/UniversityStudent.java:180-190 | a module appended adds its share to each tally |
| Entities.TalliedRemoveFirst | src/UniversityStudent.java:197-207 | a listed module removed takes its share from each tally |
| Entities.TalliedSplit | src/UniversityStudent.java:180-207 | over any module list, the same-stage tally plus the lower-stage tally is the total |
| Entities.TalliedMultiset | src/UniversityStudent.java:197-207 | the tallies depend only on the multiset of modules, not on their order |
| Entities.Student.TalliesMatch | src/UniversityStudent.java:180-207 | tallies that match the module list satisfy total == same-stage + lower-stage |
| Entities.Student.constructor | src/UniversityStudent.java:31-36 | a new student has the given names and stage, no ID, no modules and zero tallies |
| Entities.Student.New | src/UniversityStudent.java:91-98 | construction succeeds exactly for a stage in 1..4, and fails with InvalidStage otherwise |
| Entities.Student.NewWithId | src/UniversityStudent.java:47-53 | construction with an ID checks the stage first, then the ID's format |
| Entities.Student.SetId | src/UniversityStudent.java:151-159 | set-once: IDAlreadySet when an ID is set, InvalidID for a bad one, and the ID changes only on success |
| Entities.Student.GetEnrolledModules | src/UniversityStudent.java:166-173 | a fresh array holding the module list in order |
| Entities.Student.AssignModule | src/UniversityStudent.java:180-190 | appends the module; its credits go to the same-stage tally when the stages are equal, else to the lower-stage tally, and always to the total; matching tallies stay matching |
| Entities.Student.RemoveModule | src/UniversityStudent.java:197-207 | drops the first occurrence and subtracts the credits the same way; matching tallies stay matching when the module was listed |
| Entities.AssignThenRemove | src/UniversityStudent.java:180-207 | `assignModule(m)` then `removeModule(m)` restores the three tallies and the module multiset |
| Entities.AddEachSpec | src/UniversityModule.java:213-232 | the array overload of `addStaff` keeps the earlier members on a failure; it succeeds exactly when every member has an ID and no member repeats or is already listed |
| Entities.Module.constructor | src/UniversityModule.java:29-37 | a new module has the given fields, no code, no links, count 0 and is running |
| Entities.Module.New | src/UniversityModule.java:29-37 | construction checks credits in 0..120 first (InvalidCredits), then stage in 1..4 (InvalidStage) |
| Entities.Module.NewWithCode | src/UniversityModule.java:48-58 | construction with a code checks credits, then stage, then the code's format |
| Entities.Module.SetCode | src/UniversityModule.java:95-103 | set-once: IDAlreadySet when a code is set, InvalidID for a bad one, and the code changes only on success |
| Entities.Module.AtCapacity | src/UniversityModule.java:185-191 | `isAtCapacity` tests equality of count and capacity, not "at least": a module enrolled past its capacity is not at capacity |
| Entities.Module.Discontinue | src/UniversityModule.java:196-201 | both lists are emptied, the count is 0 and the flag is set, whatever the state before, so a second call changes nothing |
| Entities.Module.AddStaff | src/UniversityModule.java:237-253 | ModuleDiscontinued, then IDNotSet, then DuplicateStaff (by identity); otherwise exactly that member is appended |
| Entities.Module.AddStaffList | src/UniversityModule.java:213-232 | ModuleDiscontinued with nothing added; otherwise the member-by-member outcome and list of `AddEach` |
| Entities.Module.RemoveStaff | src/UniversityModule.java:258-264 | removes the first occurrence; StaffNotInvolved exactly when the member was not listed |
| Entities.Module.AddStudent | src/UniversityModule.java:271-274 | appends the student and increments the count |
| Entities.Module.RemoveStudent | src/UniversityModule.java:281-284 | removes one occurrence and decrements the count unconditionally |
| Entities.Module.GetTeachingStaff | src/UniversityModule.java:163-171 | a fresh array holding the staff list in order |
| Entities.Module.GetStudents | src/UniversityModule.java:291-299 | a fresh array holding the student list in order |
| Entities.Staff.constructor | src/UniversityStaff.java:21-25 | a new staff member has the given names, no ID and no modules |
| Entities.Staff.NewWithId | src/UniversityStaff.java:37-42 | construction with an ID succeeds exactly for a valid staff ID |
| Entities.Staff.SetId | src/UniversityStaff.java:92-101 | set-once: IDAlreadySet when an ID is set, InvalidID for a bad one, and the ID changes only on success |
| Entities.Staff.AddTeachingModule | src/UniversityStaff.java:107-109 | appends without a duplicate check |
| Entities.Staff.RemoveTeachingModule | src/UniversityStaff.java:115-117 | removes the first occurrence, and changes nothing when the module is absent |
| Entities.Staff.GetTeachingModules | src/UniversityStaff.java:124-132 | a fresh array holding the teaching list in order |
| Queries.RunningSpec | src/UniversityAllocationManager.java:699-716 | a module is listed as running exactly when it is stored and not discontinued; the list is no longer than the index |
| Queries.AvailableSpec | src/UniversityAllocationManager.java:721-737 | a module is listed as available exactly when it is stored, not discontinued and not at capacity |
| Queries.AvailableRunning | src/UniversityAllocationManager.java:699-737 | every available module is running |
| Queries.CountFullSet | src/UniversityAllocationManager.java:758-769 | with no student filed twice, the count is the number of stored students with exactly 120 credits |
| Queries.CountAtCapacitySet | src/UniversityAllocationManager.java:774-785 | with no module filed twice, the count is the number of stored modules at capacity |
| Queries.KeyedDistinct | src/UniversityAllocationManager.java:127-166 | a strictly sorted index that files each object under one key files no object twice |
| Queries.DistinctItemsCard | src/UniversityAllocationManager.java:612-628 | an index filing no object twice has as many entries as objects |
| Allocation.Eligibility | src/UniversityAllocationManager.java:567-589 | enrolment passes exactly when the module is not at capacity, the total stays within 120, it is running, its stage is not above the student's and, at a lower stage, the lower-stage credits stay within 30 |
| Allocation.DropAll | src/UniversityAllocationManager.java:534-539 | the students loop of `discontinue`: every student drops the module once per listing, with its credits reversed |
| Allocation.WithdrawStudents | src/UniversityAllocationManager.java:534-539 | after the loop, every student's list is its old list without the module, and every student's tallies still match |
| Allocation.UnteachAll | src/UniversityAllocationManager.java:541-544 | the staff loop of `discontinue`: every teacher drops the module once per listing |
| Allocation.WithdrawStaff | src/UniversityAllocationManager.java:541-544 | after the loop, every teacher's list is its old list without the module |
| Allocation.WithdrawAll | src/UniversityAllocationManager.java:534-545 | the module ends emptied and flagged, and every student and teacher list is the old one without it |
| Allocation.Unassign | src/UniversityAllocationManager.java:802-813 | the loop of `remove(Staff)`: every module loses the teacher, and the result is exactly the taught modules the teacher was the only staff of, in teaching-list order |
| Allocation.UnassignEach | src/UniversityAllocationManager.java:802-813 | the listed modules lose the teacher, the others are untouched, and the emptied ones are collected in order |
| Allocation.UnassignOne | src/UniversityAllocationManager.java:803-812 | one `removeStaff`, and the emptiness test is true exactly when the teacher was the module's only staff |
| Allocation.StaffLookup | src/UniversityAllocationManager.java:363-368 | one `binarySearchStaffID(staffToAdd.getID())`: the stored member filed under the entry's ID when there is one; StaffNotInSystem when the ID is not filed or the index is empty; a null dereference for an entry with no ID on a non-empty index |
| Allocation.ResolveSpec | src/UniversityAllocationManager.java:363-368 | the staff lookups succeed exactly when every entry has an ID on file, and then give the stored member filed under each entry's ID, in order |
| Allocation.ResolveFailureSticks | src/UniversityAllocationManager.java:363-368 | the first lookup that fails decides the outcome |
| Allocation.LinkStaff | src/UniversityAllocationManager.java:382-394 | with no member repeated, the module's staff list becomes the resolved list, and each member's teaching list gains the module once |
| Allocation.LinkStaffChecked | src/UniversityAllocationManager.java:382-394 | as written: the loop fails with DuplicateStaff exactly when the resolved list repeats a member, after the first member has already been linked both ways |
| Allocation.RunningIn | src/UniversityAllocationManager.java:703-709 | the filtering loop computes `Running` |
| Allocation.AvailableIn | src/UniversityAllocationManager.java:724-730 | the filtering loop computes `Available` |
| Allocation.CountFullIn | src/UniversityAllocationManager.java:759-768 | the counting loop computes `CountFull` |
| Allocation.CountAtCapacityIn | src/UniversityAllocationManager.java:775-784 | the counting loop computes `CountAtCapacity` |
| Allocation.ModuleArray | src/UniversityAllocationManager.java:710-715 | the copy into a fresh array of the same length, element by element |
| Allocation.StudentFiled | src/UniversityAllocationManager.java:127-166 | filing a fresh student with a new valid ID and no modules keeps the invariant |
| Allocation.StaffFiled | src/UniversityAllocationManager.java:219-258 | filing a fresh staff member with a new valid ID and no modules keeps the invariant |
| Allocation.StudentUnfiled | src/UniversityAllocationManager.java:842 | taking a student with no enrolments out of the index keeps the invariant and drops exactly that student |
| Allocation.TwinsResolve | src/UniversityAllocationManager.java:351-368 | two distinct staff objects with one ID pass the pairwise scan, yet resolve to the same stored member twice |
| Allocation.RepeatedStaffWitness | src/UniversityAllocationManager.java:344-398 | with one stored member and two distinct copies of it, `addModule` as written throws DuplicateStaff and leaves the store inconsistent |
| Allocation.AllocationManager.constructor | src/UniversityAllocationManager.java:29-33 | the manager starts with three empty indexes and satisfies the invariant |
| Allocation.AllocationManager.StudentIdUnique | src/UniversityAllocationManager.java:321-339 | two stored students with the same ID are the same student |
| Allocation.AllocationManager.StaffIdUnique | src/UniversityAllocationManager.java:505-521 | two stored staff members with the same ID are the same member |
| Allocation.AllocationManager.ModuleCodeUnique | src/UniversityAllocationManager.java:437-453 | two stored modules with the same code are the same module |
| Allocation.AllocationManager.AtCapacityNoSeat | src/UniversityModule.java:185-191 | for a stored module with a non-negative capacity, the equality test means no seat is left; a module with a negative capacity is never at capacity |
| Allocation.AllocationManager.GenerateStudentId | src/UniversityAllocationManager.java:321-339 | the first candidate whose rendering is unused: a valid student ID absent from the index |
| Allocation.AllocationManager.GenerateStaffId | src/UniversityAllocationManager.java:505-521 | the first candidate whose rendering is unused: a valid staff ID absent from the index |
| Allocation.AllocationManager.GenerateModuleCode | src/UniversityAllocationManager.java:437-453 | the first candidate whose rendering is unused: a valid module code absent from the index |
| Allocation.AllocationManager.InsertStudent | src/UniversityAllocationManager.java:127-166 | `binaryInsertStudent` of a fresh student adds exactly that entry and keeps the invariant |
| Allocation.AllocationManager.InsertStaff | src/UniversityAllocationManager.java:219-258 | `binaryInsertStaff` of a fresh member adds exactly that entry and keeps the invariant |
| Allocation.AllocationManager.AddStudent | src/UniversityAllocationManager.java:266-283 | InvalidStage with nothing changed, else a fresh student filed under a new valid ID drawn from the candidates, which is returned |
| Allocation.AllocationManager.AddStudentRecord | src/UniversityAllocationManager.java:289-313 | IDAlreadySet with nothing changed when the argument has an ID; else the argument and a fresh copy get one new ID, and only the copy is filed |
| Allocation.AllocationManager.AddStaff | src/UniversityAllocationManager.java:458-474 | a fresh staff member filed under a new valid ID drawn from the candidates, which is returned |
| Allocation.AllocationManager.AddStaffRecord | src/UniversityAllocationManager.java:479-498 | IDAlreadySet with nothing changed when the argument has an ID; else the argument and a fresh copy get one new ID, and only the copy is filed |
| Allocation.AllocationManager.ResolveStaff | src/UniversityAllocationManager.java:363-368 | the lookup loop computes `Resolve` over the staff index |
| Allocation.AllocationManager.BuildModule | src/UniversityAllocationManager.java:344-380 | the checks before anything changes, in order: InvalidCapacity, DuplicateStaff, the lookups, InvalidCredits, InvalidStage; on success a fresh unlinked module with a new valid code |
| Allocation.AllocationManager.AddModule | src/UniversityAllocationManager.java:344-398 | corrected `addModule`: any failure changes nothing; success files a fresh module under a new code, with the looked-up members as its staff and the module on each one's teaching list |
| Allocation.AllocationManager.Enlist | src/UniversityAllocationManager.java:382-397 | linking a member list without repeats and filing the module keeps the invariant |
| Allocation.AllocationManager.AddModuleAsWritten | src/UniversityAllocationManager.java:344-398 | `addModule` as written: the same outcomes, but a DuplicateStaff raised in the link loop leaves the invariant broken |
| Allocation.AllocationManager.AddModuleRecord | src/UniversityAllocationManager.java:403-430 | IDAlreadySet with nothing changed when the module has a code; else the argument and a fresh copy get one new code, and only the copy is filed, without staff |
| Allocation.AllocationManager.Find | src/UniversityAllocationManager.java:556-565 | InvalidID when a format is bad, then IDNotRecognised when either is missing; else the one stored student and module with those identifiers |
| Allocation.AllocationManager.Enrol | src/UniversityAllocationManager.java:551-593 | the failure order of `Locate` then `Eligibility`; a failure changes nothing, and success appends on both sides, counts one more and adds the credits, keeping the invariant (count within capacity, at most 120 credits) |
| Allocation.AllocationManager.Link | src/UniversityAllocationManager.java:591-592 | an eligible pair is linked both ways and the invariant is kept |
| Allocation.AllocationManager.UnEnrol | src/UniversityAllocationManager.java:860-883 | the same lookup failures as `enrol`; `true` when the pair was linked, with one link removed on both sides and the credits reversed; `false` with nothing changed otherwise |
| Allocation.AllocationManager.Withdraw | src/UniversityAllocationManager.java:874-882 | the scan finds the module exactly when it is on the student's list, and then unlinks it |
| Allocation.AllocationManager.Unlink | src/UniversityAllocationManager.java:877-878 | one occurrence is removed on both sides, the credits are reversed and the invariant is kept |
| Allocation.AllocationManager.FindModule | src/UniversityAllocationManager.java:528-533 | InvalidID, then IDNotRecognised; else the one stored module with the code |
| Allocation.AllocationManager.Discontinue | src/UniversityAllocationManager.java:526-546 | a failed lookup changes nothing; else the module stays filed, emptied and flagged, and every student and teacher list loses it |
| Allocation.AllocationManager.Retire | src/UniversityAllocationManager.java:534-545 | the updates after the lookup keep the invariant |
| Allocation.AllocationManager.RemoveStudentRecord | src/UniversityAllocationManager.java:826-843 | IDNotSet, then a null dereference for an absent student, both changing nothing; else the student is unenrolled from all its modules and its entry removed |
| Allocation.AllocationManager.Expel | src/UniversityAllocationManager.java:838-842 | the stored student ends with no modules, every module's list loses it, and its entry is removed |
| Allocation.AllocationManager.EmptyStudent | src/UniversityAllocationManager.java:838-840 | `unEnrol` for every listed module empties the student's list and removes it from every module |
| Allocation.AllocationManager.UnEnrolListed | src/UniversityAllocationManager.java:839 | one `unEnrol` call of the loop removes one link on both sides |
| Allocation.AllocationManager.RemoveStaffRecord | src/UniversityAllocationManager.java:791-821 | IDNotSet, then InvalidID, then a null dereference for an absent member, all changing nothing; else the member leaves every module and the index, and the modules left without staff are returned |
| Allocation.AllocationManager.Dismiss | src/UniversityAllocationManager.java:799-820 | the unlinking loop and the removal of the entry keep the invariant |
| Allocation.AllocationManager.IndexesDistinct | src/UniversityAllocationManager.java:612-628 | no index files one object twice |
| Allocation.AllocationManager.NumberOfStudents | src/UniversityAllocationManager.java:619-621 | the number of stored students |
| Allocation.AllocationManager.NumberOfStaff | src/UniversityAllocationManager.java:612-614 | the number of stored staff members |
| Allocation.AllocationManager.NumberOfModules | src/UniversityAllocationManager.java:626-628 | the number of stored modules |
| Allocation.AllocationManager.AllStaff | src/UniversityAllocationManager.java:633-640 | a fresh array of the stored staff in index order |
| Allocation.AllocationManager.AllStudents | src/UniversityAllocationManager.java:660-667 | a fresh array of the stored students in index order |
| Allocation.AllocationManager.AllModules | src/UniversityAllocationManager.java:687-694 | a fresh array of the stored modules in index order |
| Allocation.AllocationManager.ModuleStaff | src/UniversityAllocationManager.java:645-655 | the lookup failures of `FindModule`, else the module's staff in order |
| Allocation.AllocationManager.ModuleStudents | src/UniversityAllocationManager.java:672-682 | the lookup failures of `FindModule`, else the module's students in order |
| Allocation.AllocationManager.FindStudent | src/UniversityAllocationManager.java:745-750 | InvalidID, then IDNotRecognised; else the stored student with the ID |
| Allocation.AllocationManager.StudentModules | src/UniversityAllocationManager.java:742-753 | the lookup failures of `FindStudent`, else the student's modules in order |
| Allocation.AllocationManager.GetRunningModules | src/UniversityAllocationManager.java:699-716 | the running modules in index order: each is stored and not discontinued, and every such module is listed |
| Allocation.AllocationManager.GetAvailableModules | src/UniversityAllocationManager.java:721-737 | the available modules in index order: each is stored, running and below capacity, and every such module is listed |
| Allocation.AllocationManager.NumberOfFullyAllocatedStudents | src/UniversityAllocationManager.java:758-769 | the number of stored students with exactly 120 credits |
| Allocation.AllocationManager.NumberOfModulesAtCapacity | src/UniversityAllocationManager.java:774-785 | the number of stored modules whose count equals their capacity |

## Left out

- `saveAllocationManager` and `loadAllocationManager`: Java serialization and file I/O. `load` assigns only to a local variable in any case.
- `printInfo`, the getters that only return a field, and exception messages: console output and message strings. Each exception class is one `Error` constructor.
- `Math.random` in the three generators: the draws are a candidate sequence passed in. The model requires that one candidate is unused, where the recursion would retry forever.
- `Integer.parseInt` and `Long.parseLong` accept non-ASCII Unicode digits; the model accepts ASCII digits only.
- `String.compareTo` compares UTF-16 code units, while Dafny compares Unicode scalar values. The two differ only outside the Basic Multilingual Plane, and identifiers are ASCII.
- The byte width of credits, stages and tallies: they are unbounded integers kept within 0..120 by the invariant, so no narrowing can happen.
- `ObjectArrayList` is not part of this model beyond `add`, `get`, `size` and `remove` by identity, which are `seq` operations.
- Null elements in the staff array given to `addModule`, and null arguments in general: every argument is a non-null reference.
- Allocation.AllocationManager.AddModule: the lookup loop and the link loop look the members up once, not twice. The index does not change in between, so both give the same members.
- Allocation.AllocationManager.AddModule: a staff entry with no ID makes the lookup dereference null when the staff index is not empty. This is modelled as the error NullDereference, raised before any change.
- Allocation.DropAll: the loops of `discontinue` and `remove(Staff)` walk the entity's own list instead of the array copy the code takes first. Nothing changes that list during those walks, so the order and the effects are the same. `remove(Student)` is different: each `unEnrol` shrinks the student's own list. There, `EmptyStudent` walks a snapshot taken before the loop, like the code's copy, and each `unEnrol` drops the head of the live list.
- Allocation.AllocationManager.AddModuleRecord: the fresh copy is built without `new UniversityModule`'s stage and credits checks. Those values come from a module that passed them already, and the code ignores a failure there anyway.

## Findings

| source | as written | input that shows it | evidently intended | confidence | as-written member | corrected member |
|---|---|---|---|---|---|---|
| src/UniversityAllocationManager.java:351-394 | The duplicate check compares the array's entries by reference. The link loop then adds the looked-up stored members, and `module.addStaff` throws DuplicateStaffException when two entries resolve to the same member. By then an earlier member's teaching list already holds a module that is never filed. | One stored staff member, and an array holding two distinct `Staff` objects with that member's ID. | Reject a repeated staff member before any change, leaving the store unchanged as the interface documentation requires. | not executed | Allocation.RepeatedStaffWitness | Allocation.AllocationManager.AddModule |
