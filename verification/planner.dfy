/** `assign_dir_and_file_names`: naming every directory, deciding which
    course-work materials need their file list refreshed, and which files still
    have to be downloaded. */
module Planner {
  import opened Seqs
  import opened Catalog
  import opened Assign
  import opened Naming

  /** The courses with every name assigned and every material marked, the
      number of course-work materials whose directory looked incomplete, and
      the number of files still to download. */
  datatype Plan = Plan(courses: seq<Course>, countToRefresh: nat, countToDownload: nat)

  /** The body of the inner loop over course-work materials: given the
      directory name of the enclosing course and one course-work material, the
      updated material and what it adds to the loop's counter. */
  type GroupStep = (string, CourseWorkMaterial) -> (CourseWorkMaterial, nat)

  /** Each course-work material paired with the directory name of its course,
      in loop order. */
  type Entry = (string, CourseWorkMaterial)

  function GroupDir(courseDir: string, group: CourseWorkMaterial): Path
  {
    [courseDir, group.dirname]
  }

  function EntriesIn(courseDir: string, groups: seq<CourseWorkMaterial>): (es: seq<Entry>)
    ensures |es| == |groups|
    ensures forall j :: 0 <= j < |es| ==> es[j] == (courseDir, groups[j])
  {
    seq(|groups|, j requires 0 <= j < |groups| => (courseDir, groups[j]))
  }

  /** All course-work materials of all courses, in loop order. */
  function Entries(courses: seq<Course>): seq<Entry>
    decreases |courses|
  {
    if |courses| == 0 then [] else EntriesIn(courses[0].dirname, courses[0].children) + Entries(courses[1..])
  }

  /** What a run of the loop adds up. */
  function TotalCount(es: seq<Entry>, step: GroupStep): nat
    decreases |es|
  {
    if |es| == 0 then 0 else step(es[0].0, es[0].1).1 + TotalCount(es[1..], step)
  }

  /** Each entry with its course-work material replaced by the step's result. */
  function Apply(es: seq<Entry>, step: GroupStep): (r: seq<Entry>)
    ensures |r| == |es|
    ensures forall j :: 0 <= j < |r| ==> r[j] == (es[j].0, step(es[j].0, es[j].1).0)
  {
    seq(|es|, j requires 0 <= j < |es| => (es[j].0, step(es[j].0, es[j].1).0))
  }

  // ---------------------------------------------------------------------------
  // The nested loops

  /** The inner loop: the step applied to each course-work material of one
      course, and the sum of what it counts. */
  function ForGroups(courseDir: string, groups: seq<CourseWorkMaterial>, step: GroupStep): (r: (seq<CourseWorkMaterial>, nat))
    ensures |r.0| == |groups|
    ensures forall j :: 0 <= j < |groups| ==> r.0[j] == step(courseDir, groups[j]).0
    ensures r.1 == TotalCount(EntriesIn(courseDir, groups), step)
    decreases |groups|
  {
    if |groups| == 0 then ([], 0)
    else
      var head := step(courseDir, groups[0]);
      var rest := ForGroups(courseDir, groups[1..], step);
      assert EntriesIn(courseDir, groups)[1..] == EntriesIn(courseDir, groups[1..]);
      ([head.0] + rest.0, head.1 + rest.1)
  }

  /** The outer loop over courses. */
  function ForCourses(courses: seq<Course>, step: GroupStep): (r: (seq<Course>, nat))
    ensures |r.0| == |courses|
    ensures forall i :: 0 <= i < |courses| ==>
              r.0[i] == courses[i].(children := ForGroups(courses[i].dirname, courses[i].children, step).0)
    ensures r.1 == TotalCount(Entries(courses), step)
    decreases |courses|
  {
    if |courses| == 0 then ([], 0)
    else
      var c := courses[0];
      var inner := ForGroups(c.dirname, c.children, step);
      var rest := ForCourses(courses[1..], step);
      TotalCountConcat(EntriesIn(c.dirname, c.children), Entries(courses[1..]), step);
      SteppedCons(courses, step, c.(children := inner.0), rest.0);
      ([c.(children := inner.0)] + rest.0, inner.1 + rest.1)
  }

  lemma SteppedCons(courses: seq<Course>, step: GroupStep, head: Course, rest: seq<Course>)
    requires |courses| > 0 && |rest| == |courses| - 1
    requires head == courses[0].(children := ForGroups(courses[0].dirname, courses[0].children, step).0)
    requires forall i :: 0 <= i < |rest| ==>
               rest[i] == courses[1..][i].(children := ForGroups(courses[1..][i].dirname, courses[1..][i].children, step).0)
    ensures forall i :: 0 <= i < |courses| ==>
              ([head] + rest)[i] == courses[i].(children := ForGroups(courses[i].dirname, courses[i].children, step).0)
  {
    forall i | 0 < i < |courses|
      ensures ([head] + rest)[i] == courses[i].(children := ForGroups(courses[i].dirname, courses[i].children, step).0)
    {
      assert ([head] + rest)[i] == rest[i - 1] && courses[1..][i - 1] == courses[i];
    }
  }

  lemma {:induction false} TotalCountConcat(a: seq<Entry>, b: seq<Entry>, step: GroupStep)
    ensures TotalCount(a + b, step) == TotalCount(a, step) + TotalCount(b, step)
    decreases |a|
  {
    if |a| == 0 {
      assert a + b == b;
    } else {
      assert (a + b)[1..] == a[1..] + b;
      TotalCountConcat(a[1..], b, step);
    }
  }

  /** Running the loops changes the course-work materials and nothing else: the
      entries of the result are the stepped entries of the input. */
  lemma {:induction false} ForCoursesEntries(courses: seq<Course>, step: GroupStep)
    ensures Entries(ForCourses(courses, step).0) == Apply(Entries(courses), step)
    decreases |courses|
  {
    if |courses| > 0 {
      var c := courses[0];
      var r := ForCourses(courses, step).0;
      var inner := ForGroups(c.dirname, c.children, step).0;
      ForCoursesEntries(courses[1..], step);
      assert r[1..] == ForCourses(courses[1..], step).0;
      assert r[0] == c.(children := inner);
      assert EntriesIn(c.dirname, inner) == Apply(EntriesIn(c.dirname, c.children), step);
      ApplyConcat(EntriesIn(c.dirname, c.children), Entries(courses[1..]), step);
    }
  }

  lemma ApplyConcat(a: seq<Entry>, b: seq<Entry>, step: GroupStep)
    ensures Apply(a + b, step) == Apply(a, step) + Apply(b, step)
  {
  }

  // ---------------------------------------------------------------------------
  // The first pass: naming directories and the fast path

  /** Both levels of directories named: the courses as
      `assign_directory_names` orders and names them, and within each course
      its own course-work materials, ordered and named the same way. */
  function NameDirectories(courses: seq<Course>, printable: char -> bool): (r: seq<Course>)
    ensures |r| == |courses|
    ensures forall i :: 0 <= i < |r| ==>
              r[i] == AssignDirectoryNames(courses, printable)[i].(children := r[i].children)
    ensures forall i :: 0 <= i < |r| ==>
              r[i].children == AssignDirectoryNames(AssignDirectoryNames(courses, printable)[i].children, printable)
  {
    var named := AssignDirectoryNames(courses, printable);
    seq(|named|, i requires 0 <= i < |named| => named[i].(children := AssignDirectoryNames(named[i].children, printable)))
  }

  /** Every material of the list with the given mark. */
  function Mark(materials: seq<Material>, downloaded: bool): (r: seq<Material>)
    ensures |r| == |materials|
    ensures forall k :: 0 <= k < |r| ==> r[k] == materials[k].(downloaded := downloaded)
  {
    seq(|materials|, k requires 0 <= k < |materials| => materials[k].(downloaded := downloaded))
  }

  /** A directory that holds at least as many entries as the course-work
      material has files is taken to be complete. */
  predicate LooksDone(fs: FileSystem, courseDir: string, group: CourseWorkMaterial)
  {
    LooksComplete(fs, GroupDir(courseDir, group), |group.children|)
  }

  /** The fast path for one course-work material: all its files marked
      downloaded when its directory looks complete, all marked missing (and one
      more material to refresh) otherwise. */
  function CheckGroup(fs: FileSystem, courseDir: string, group: CourseWorkMaterial): (r: (CourseWorkMaterial, nat))
    ensures r.0 == group.(children := r.0.children)
    ensures |r.0.children| == |group.children|
    ensures forall k :: 0 <= k < |r.0.children| ==>
              r.0.children[k] == group.children[k].(downloaded := LooksDone(fs, courseDir, group))
    ensures r.1 == if Stale(fs)((courseDir, group)) then 1 else 0
  {
    if LooksDone(fs, courseDir, group) then (group.(children := Mark(group.children, true)), 0)
    else (group.(children := Mark(group.children, false)), 1)
  }

  function CheckStep(fs: FileSystem): GroupStep
  {
    (courseDir: string, group: CourseWorkMaterial) => CheckGroup(fs, courseDir, group)
  }

  /** After the first pass every material of a course-work material carries
      the same mark: downloaded exactly when its directory looks complete. */
  lemma FirstPassMarks(named: seq<Course>, fs: FileSystem)
    ensures var es := Entries(ForCourses(named, CheckStep(fs)).0);
            forall j, k :: 0 <= j < |es| && 0 <= k < |es[j].1.children| ==>
              es[j].1.children[k].downloaded == LooksDone(fs, es[j].0, es[j].1)
  {
    ForCoursesEntries(named, CheckStep(fs));
  }

  // ---------------------------------------------------------------------------
  // The second pass: refreshing file lists

  /** A planned file: its path and the material it holds. */
  type FileEntry = (Path, Material)

  /** A file still to be downloaded. */
  predicate Pending(f: FileEntry)
  {
    !f.1.downloaded
  }

  function FilesIn(dir: Path, materials: seq<Material>): (fs: seq<FileEntry>)
    ensures |fs| == |materials|
    ensures forall k :: 0 <= k < |fs| ==> fs[k] == (dir + [materials[k].filename], materials[k])
  {
    seq(|materials|, k requires 0 <= k < |materials| => (dir + [materials[k].filename], materials[k]))
  }

  function EntryFiles(e: Entry): seq<FileEntry>
  {
    FilesIn(GroupDir(e.0, e.1), e.1.children)
  }

  function FilesOf(es: seq<Entry>): seq<FileEntry>
    decreases |es|
  {
    if |es| == 0 then [] else EntryFiles(es[0]) + FilesOf(es[1..])
  }

  /** Every planned file, in loop order. */
  function PlannedFiles(courses: seq<Course>): seq<FileEntry>
  {
    FilesOf(Entries(courses))
  }

  /** The innermost loop of the second pass: each material marked downloaded
      exactly when its file exists, and the files still missing counted. */
  function Recheck(fs: FileSystem, dir: Path, materials: seq<Material>): (r: (seq<Material>, nat))
    ensures |r.0| == |materials|
    ensures forall k :: 0 <= k < |r.0| ==>
              r.0[k] == materials[k].(downloaded := dir + [materials[k].filename] in fs.files)
    ensures r.1 == |Filter(FilesIn(dir, r.0), Pending)|
    decreases |materials|
  {
    if |materials| == 0 then ([], 0)
    else
      var m := materials[0];
      var marked := m.(downloaded := dir + [m.filename] in fs.files);
      var rest := Recheck(fs, dir, materials[1..]);
      var all := [marked] + rest.0;
      assert FilesIn(dir, all) == [(dir + [marked.filename], marked)] + FilesIn(dir, rest.0);
      (all, (if marked.downloaded then 0 else 1) + rest.1)
  }

  /** Some material of the course-work material is marked missing. */
  predicate SomeMissing(group: CourseWorkMaterial)
  {
    exists k :: 0 <= k < |group.children| && !group.children[k].downloaded
  }

  /** The slow path for one course-work material: when some file is marked
      missing, its file names are assigned afresh and every file is looked up
      on disk; the count is the number still missing. */
  function RefreshGroup(fs: FileSystem, env: Environment, courseDir: string, group: CourseWorkMaterial): (r: (CourseWorkMaterial, nat))
    ensures r.0 == group.(children := r.0.children)
    ensures !SomeMissing(group) ==> r == (group, 0)
    ensures SomeMissing(group) ==>
              && |r.0.children| == |group.children|
              && forall k :: 0 <= k < |r.0.children| ==>
                   r.0.children[k].downloaded == (GroupDir(courseDir, group) + [r.0.children[k].filename] in fs.files)
    ensures r.1 == |Filter(EntryFiles((courseDir, r.0)), Pending)|
  {
    if SomeMissing(group) then
      var named := FreshNames(group.children, env);
      var checked := Recheck(fs, GroupDir(courseDir, group), named);
      RecheckedGroup(fs, courseDir, group, named, checked);
      (group.(children := checked.0), checked.1)
    else
      NothingPending(courseDir, group);
      (group, 0)
  }

  lemma RecheckedGroup(fs: FileSystem, courseDir: string, group: CourseWorkMaterial, named: seq<Material>,
                       checked: (seq<Material>, nat))
    requires |named| == |group.children| && checked == Recheck(fs, GroupDir(courseDir, group), named)
    ensures var out := group.(children := checked.0);
            && |out.children| == |group.children|
            && (forall k :: 0 <= k < |out.children| ==>
                  out.children[k].downloaded == (GroupDir(courseDir, group) + [out.children[k].filename] in fs.files))
            && checked.1 == |Filter(EntryFiles((courseDir, out)), Pending)|
  {
    var out := group.(children := checked.0);
    assert GroupDir(courseDir, out) == GroupDir(courseDir, group);
  }

  /** A course-work material with every file marked downloaded has nothing
      pending. */
  lemma NothingPending(courseDir: string, group: CourseWorkMaterial)
    requires !SomeMissing(group)
    ensures |Filter(EntryFiles((courseDir, group)), Pending)| == 0
  {
    FilterEmpty(EntryFiles((courseDir, group)), Pending);
  }

  /** The materials of one course-work material with their names assigned
      afresh (`assign_file_names`), one per material. It states only the
      length, so that where the slow path is defined the solver does not
      carry the whole contract of `AssignFileNames`; the lemmas that need
      more unfold it. */
  function FreshNames(materials: seq<Material>, env: Environment): (r: seq<Material>)
    ensures |r| == |materials|
  {
    AssignFileNames(materials, env)
  }

  function RefreshStep(fs: FileSystem, env: Environment): GroupStep
  {
    (courseDir: string, group: CourseWorkMaterial) => RefreshGroup(fs, env, courseDir, group)
  }

  // ---------------------------------------------------------------------------
  // assign_dir_and_file_names

  /** One course-work material as the two passes leave it, stated directly:
      when its directory looks complete every file is marked downloaded;
      otherwise its files are named afresh and each is marked downloaded
      exactly when it exists. */
  function PlannedGroup(fs: FileSystem, env: Environment, courseDir: string, group: CourseWorkMaterial): CourseWorkMaterial
  {
    if LooksDone(fs, courseDir, group) then group.(children := Mark(group.children, true))
    else
      var named := AssignFileNames(Mark(group.children, false), env);
      group.(children := Recheck(fs, GroupDir(courseDir, group), named).0)
  }

  /** `assign_dir_and_file_names`, with the output directory read from `fs`.
      The plan holds the named courses, each course-work material as
      `PlannedGroup` states it; the refresh count is the number of named
      course-work materials whose directory looks incomplete; the download
      count is the number of planned files still marked missing; and no file
      marked missing exists already. */
  function AssignDirAndFileNames(courses: seq<Course>, fs: FileSystem, env: Environment): (plan: Plan)
    ensures |plan.courses| == |courses|
    ensures var named := NameDirectories(courses, env.printable);
            forall i :: 0 <= i < |courses| ==> plan.courses[i] == named[i].(children := plan.courses[i].children)
    ensures forall i :: 0 <= i < |courses| ==>
              |plan.courses[i].children| == |NameDirectories(courses, env.printable)[i].children|
    ensures var ns := Entries(NameDirectories(courses, env.printable));
            var es := Entries(plan.courses);
            && |es| == |ns|
            && forall j :: 0 <= j < |es| ==> es[j] == (ns[j].0, PlannedGroup(fs, env, ns[j].0, ns[j].1))
    ensures plan.countToRefresh == |Filter(Entries(NameDirectories(courses, env.printable)), Stale(fs))|
    ensures plan.countToRefresh == |Filter(Entries(plan.courses), Stale(fs))|
    ensures plan.countToDownload == |Filter(PlannedFiles(plan.courses), Pending)|
    ensures forall f :: f in PlannedFiles(plan.courses) && Pending(f) ==> f.0 !in fs.files
  {
    var named := NameDirectories(courses, env.printable);
    var first := ForCourses(named, CheckStep(fs));
    var second := ForCourses(first.0, RefreshStep(fs, env));
    PlanFacts(named, fs, env);
    Plan(second.0, first.1, second.1)
  }

  /** What the two passes over the named courses produce. */
  lemma PlanFacts(named: seq<Course>, fs: FileSystem, env: Environment)
    ensures var first := ForCourses(named, CheckStep(fs));
            var second := ForCourses(first.0, RefreshStep(fs, env));
            && (forall i :: 0 <= i < |named| ==> second.0[i] == named[i].(children := second.0[i].children))
            && (forall i :: 0 <= i < |named| ==> |second.0[i].children| == |named[i].children|)
            && |Entries(second.0)| == |Entries(named)|
            && (forall j :: 0 <= j < |Entries(second.0)| ==>
                  Entries(second.0)[j] == (Entries(named)[j].0, PlannedGroup(fs, env, Entries(named)[j].0, Entries(named)[j].1)))
            && first.1 == |Filter(Entries(named), Stale(fs))|
            && first.1 == |Filter(Entries(second.0), Stale(fs))|
            && second.1 == |Filter(PlannedFiles(second.0), Pending)|
            && (forall f :: f in PlannedFiles(second.0) && Pending(f) ==> f.0 !in fs.files)
  {
    var first := ForCourses(named, CheckStep(fs));
    PassesPreserveEntries(named, fs, env);
    RefreshCount(Entries(named), fs);
    DownloadCount(Entries(first.0), fs, env);
    ForCoursesEntries(named, CheckStep(fs));
    ForCoursesEntries(first.0, RefreshStep(fs, env));
    NoOverwrite(Entries(first.0), fs, env);
    PassesArePlanned(Entries(named), fs, env);
    PassesKeepGroupCounts(named, fs, env);
  }

  /** Each course keeps its number of course-work materials through both
      passes, so the entry lists line up course by course. */
  lemma PassesKeepGroupCounts(named: seq<Course>, fs: FileSystem, env: Environment)
    ensures var first := ForCourses(named, CheckStep(fs));
            var second := ForCourses(first.0, RefreshStep(fs, env));
            forall i :: 0 <= i < |named| ==> |second.0[i].children| == |named[i].children|
  {
    var first := ForCourses(named, CheckStep(fs));
    var second := ForCourses(first.0, RefreshStep(fs, env));
    forall i | 0 <= i < |named|
      ensures |second.0[i].children| == |named[i].children|
    {
      assert |first.0[i].children| == |named[i].children|;
    }
  }

  /** Both passes over a list of entries give each course-work material its
      `PlannedGroup`. */
  lemma PassesArePlanned(es: seq<Entry>, fs: FileSystem, env: Environment)
    ensures var out := Apply(Apply(es, CheckStep(fs)), RefreshStep(fs, env));
            forall j :: 0 <= j < |es| ==> out[j] == (es[j].0, PlannedGroup(fs, env, es[j].0, es[j].1))
  {
    forall j | 0 <= j < |es|
      ensures RefreshGroup(fs, env, es[j].0, CheckGroup(fs, es[j].0, es[j].1).0).0 == PlannedGroup(fs, env, es[j].0, es[j].1)
    {
      TwoPasses(fs, env, es[j].0, es[j].1);
    }
  }

  /** The fast path followed by the slow path is `PlannedGroup`. */
  lemma TwoPasses(fs: FileSystem, env: Environment, courseDir: string, group: CourseWorkMaterial)
    ensures RefreshGroup(fs, env, courseDir, CheckGroup(fs, courseDir, group).0).0 == PlannedGroup(fs, env, courseDir, group)
  {
    if LooksDone(fs, courseDir, group) {
      DoneGroupKept(fs, env, courseDir, group);
    } else {
      var checked := group.(children := Mark(group.children, false));
      assert CheckGroup(fs, courseDir, group).0 == checked;
      assert GroupDir(courseDir, checked) == GroupDir(courseDir, group);
      var named := FreshNames(checked.children, env);
      assert named == AssignFileNames(checked.children, env);
      if |group.children| > 0 {
        assert !checked.children[0].downloaded;
        RefreshUnfold(fs, env, courseDir, checked, named);
      } else {
        assert checked.children == [];
        assert named == [];
      }
    }
  }

  /** A course-work material whose directory looks incomplete. */
  function Stale(fs: FileSystem): Entry -> bool
  {
    (e: Entry) => !LooksDone(fs, e.0, e.1)
  }

  /** The passes keep each course-work material's directory and its number of
      files. */
  lemma PassesPreserveEntries(named: seq<Course>, fs: FileSystem, env: Environment)
    ensures var first := ForCourses(named, CheckStep(fs)).0;
            var second := ForCourses(first, RefreshStep(fs, env)).0;
            |Filter(Entries(second), Stale(fs))| == |Filter(Entries(named), Stale(fs))|
  {
    var first := ForCourses(named, CheckStep(fs)).0;
    ForCoursesEntries(named, CheckStep(fs));
    ForCoursesEntries(first, RefreshStep(fs, env));
    CheckKeepsStale(Entries(named), fs);
    RefreshKeepsStale(Entries(first), fs, env);
  }

  lemma CheckKeepsStale(es: seq<Entry>, fs: FileSystem)
    ensures |Filter(Apply(es, CheckStep(fs)), Stale(fs))| == |Filter(es, Stale(fs))|
  {
    var es1 := Apply(es, CheckStep(fs));
    assert forall j :: 0 <= j < |es| ==> Stale(fs)(es1[j]) == Stale(fs)(es[j]);
    FilterLengthPointwise(es1, es, Stale(fs), Stale(fs));
  }

  lemma RefreshKeepsStale(es: seq<Entry>, fs: FileSystem, env: Environment)
    ensures |Filter(Apply(es, RefreshStep(fs, env)), Stale(fs))| == |Filter(es, Stale(fs))|
  {
    var es1 := Apply(es, RefreshStep(fs, env));
    assert forall j :: 0 <= j < |es| ==> Stale(fs)(es1[j]) == Stale(fs)(es[j]);
    FilterLengthPointwise(es1, es, Stale(fs), Stale(fs));
  }

  /** The fast path counts exactly the stale course-work materials. */
  lemma {:induction false} RefreshCount(es: seq<Entry>, fs: FileSystem)
    ensures TotalCount(es, CheckStep(fs)) == |Filter(es, Stale(fs))|
    decreases |es|
  {
    if |es| > 0 {
      RefreshCount(es[1..], fs);
    }
  }

  /** The slow path counts exactly the files it leaves marked missing. */
  lemma {:induction false} DownloadCount(es: seq<Entry>, fs: FileSystem, env: Environment)
    ensures TotalCount(es, RefreshStep(fs, env)) == |Filter(FilesOf(Apply(es, RefreshStep(fs, env))), Pending)|
    decreases |es|
  {
    if |es| > 0 {
      var step := RefreshStep(fs, env);
      var applied := Apply(es, step);
      DownloadCount(es[1..], fs, env);
      assert applied[1..] == Apply(es[1..], step);
      FilterConcat(EntryFiles(applied[0]), FilesOf(applied[1..]), Pending);
    }
  }

  /** No file the plan marks missing exists yet. Two planned files can still
      share a path (see `PendingPathsCanCoincide`). */
  lemma {:induction false} NoOverwrite(es: seq<Entry>, fs: FileSystem, env: Environment)
    ensures forall f :: f in FilesOf(Apply(es, RefreshStep(fs, env))) && Pending(f) ==> f.0 !in fs.files
    decreases |es|
  {
    if |es| > 0 {
      var step := RefreshStep(fs, env);
      var applied := Apply(es, step);
      NoOverwrite(es[1..], fs, env);
      assert applied[1..] == Apply(es[1..], step);
      assert FilesOf(applied) == EntryFiles(applied[0]) + FilesOf(applied[1..]);
    }
  }
  /** Two planned files can share a path. In a course-work material whose
      directory looks incomplete and whose files get the base names `b`, `b`
      and `b_001`, the first and the third file both go to `b_001`; when that
      file does not exist both are marked missing, so the downloader creates
      the same path twice. */
  lemma PendingPathsCanCoincide(fs: FileSystem, env: Environment, courseDir: string, group: CourseWorkMaterial, b: string)
    requires !LooksDone(fs, courseDir, group) && '.' !in b
    requires Map(AssignFileNames(Mark(group.children, false), env), BaseName(env)) == [b, b, b + CounterTag(1)]
    requires GroupDir(courseDir, group) + [b + CounterTag(1)] !in fs.files
    ensures var files := EntryFiles((courseDir, PlannedGroup(fs, env, courseDir, group)));
            && |files| == 3
            && files[0].0 == files[2].0
            && Pending(files[0]) && Pending(files[2])
  {
    FileNamesCanCollide(Mark(group.children, false), env, b);
    var out := PlannedGroup(fs, env, courseDir, group);
    assert GroupDir(courseDir, out) == GroupDir(courseDir, group);
  }

  // ---------------------------------------------------------------------------
  // Running again

  /** Once every file the plan marks missing has been written (and nothing was
      deleted), planning again finds nothing left to download. */
  lemma RerunFindsNothing(courses: seq<Course>, fs: FileSystem, fs2: FileSystem, env: Environment)
    requires Grows(fs, fs2)
    requires forall f :: f in PlannedFiles(AssignDirAndFileNames(courses, fs, env).courses) && Pending(f) ==> f.0 in fs2.files
    ensures AssignDirAndFileNames(courses, fs2, env).countToDownload == 0
  {
    var named := NameDirectories(courses, env.printable);
    var first := ForCourses(named, CheckStep(fs)).0;
    var first2 := ForCourses(named, CheckStep(fs2)).0;
    ForCoursesEntries(named, CheckStep(fs));
    ForCoursesEntries(named, CheckStep(fs2));
    ForCoursesEntries(first, RefreshStep(fs, env));
    RerunEntries(Entries(named), fs, fs2, env);
  }

  lemma {:induction false} RerunEntries(es: seq<Entry>, fs: FileSystem, fs2: FileSystem, env: Environment)
    requires Grows(fs, fs2)
    requires forall f :: f in FilesOf(Apply(Apply(es, CheckStep(fs)), RefreshStep(fs, env))) && Pending(f) ==> f.0 in fs2.files
    ensures TotalCount(Apply(es, CheckStep(fs2)), RefreshStep(fs2, env)) == 0
    decreases |es|
  {
    if |es| > 0 {
      var once := Apply(Apply(es, CheckStep(fs)), RefreshStep(fs, env));
      TwiceAppliedTail(es, CheckStep(fs), RefreshStep(fs, env));
      FilesOfCons(once);
      RerunEntries(es[1..], fs, fs2, env);
      AppliedTail(es, CheckStep(fs2));
      RerunGroup(es[0].0, es[0].1, fs, fs2, env);
    }
  }

  lemma AppliedTail(es: seq<Entry>, step: GroupStep)
    requires |es| > 0
    ensures Apply(es, step)[1..] == Apply(es[1..], step)
  {
  }

  lemma TwiceAppliedTail(es: seq<Entry>, first: GroupStep, second: GroupStep)
    requires |es| > 0
    ensures Apply(Apply(es, first), second)[1..] == Apply(Apply(es[1..], first), second)
  {
    AppliedTail(es, first);
    AppliedTail(Apply(es, first), second);
  }

  lemma FilesOfCons(es: seq<Entry>)
    requires |es| > 0
    ensures FilesOf(es) == EntryFiles(es[0]) + FilesOf(es[1..])
  {
  }

  /** One course-work material on the second run. */
  lemma RerunGroup(courseDir: string, group: CourseWorkMaterial, fs: FileSystem, fs2: FileSystem, env: Environment)
    requires Grows(fs, fs2)
    requires var once := RefreshGroup(fs, env, courseDir, CheckGroup(fs, courseDir, group).0).0;
             forall f :: f in EntryFiles((courseDir, once)) && Pending(f) ==> f.0 in fs2.files
    ensures RefreshGroup(fs2, env, courseDir, CheckGroup(fs2, courseDir, group).0).1 == 0
  {
    var checked2 := CheckGroup(fs2, courseDir, group).0;
    if LooksDone(fs2, courseDir, group) {
      assert forall k :: 0 <= k < |checked2.children| ==> checked2.children[k].downloaded;
    } else if SomeMissing(checked2) {
      assert !LooksDone(fs, courseDir, group);
      assert CheckGroup(fs, courseDir, group).0 == checked2;
      var dir := GroupDir(courseDir, checked2);
      var named := FreshNames(checked2.children, env);
      var once := Recheck(fs, dir, named).0;
      assert RefreshGroup(fs, env, courseDir, checked2).0 == checked2.(children := once);
      assert EntryFiles((courseDir, checked2.(children := once))) == FilesIn(dir, once);
      RecheckTwice(fs, fs2, dir, named);
    }
  }

  /** Rechecking again after every missing file was written finds none
      missing. */
  lemma RecheckTwice(fs: FileSystem, fs2: FileSystem, dir: Path, named: seq<Material>)
    requires fs.files <= fs2.files
    requires forall f :: f in FilesIn(dir, Recheck(fs, dir, named).0) && Pending(f) ==> f.0 in fs2.files
    ensures Recheck(fs2, dir, named).1 == 0
  {
    RecheckedFilesPresent(fs, fs2, dir, named);
    RecheckAllPresent(fs2, dir, named);
  }

  /** Files that existed, or that the first run marked missing and that were
      then written, all exist afterwards. */
  lemma RecheckedFilesPresent(fs: FileSystem, fs2: FileSystem, dir: Path, named: seq<Material>)
    requires fs.files <= fs2.files
    requires forall f :: f in FilesIn(dir, Recheck(fs, dir, named).0) && Pending(f) ==> f.0 in fs2.files
    ensures forall k :: 0 <= k < |named| ==> dir + [named[k].filename] in fs2.files
  {
    var once := Recheck(fs, dir, named).0;
    forall k | 0 <= k < |named|
      ensures dir + [named[k].filename] in fs2.files
    {
      assert FilesIn(dir, once)[k] == (dir + [named[k].filename], once[k]);
    }
  }

  /** When every file exists, the recheck leaves nothing missing. */
  lemma RecheckAllPresent(fs: FileSystem, dir: Path, named: seq<Material>)
    requires forall k :: 0 <= k < |named| ==> dir + [named[k].filename] in fs.files
    ensures Recheck(fs, dir, named).1 == 0
  {
    FilterEmpty(FilesIn(dir, Recheck(fs, dir, named).0), Pending);
  }

  // ---------------------------------------------------------------------------
  // What the marks mean

  /** In the plan, every material of a course-work material whose directory
      looks complete is marked downloaded; every material of any other is
      marked downloaded exactly when its file exists. */
  lemma PlanMarks(courses: seq<Course>, fs: FileSystem, env: Environment)
    ensures var es := Entries(AssignDirAndFileNames(courses, fs, env).courses);
            forall j, k :: 0 <= j < |es| && 0 <= k < |es[j].1.children| ==>
              es[j].1.children[k].downloaded ==
                (LooksDone(fs, es[j].0, es[j].1) || GroupDir(es[j].0, es[j].1) + [es[j].1.children[k].filename] in fs.files)
  {
    var named := NameDirectories(courses, env.printable);
    var first := ForCourses(named, CheckStep(fs)).0;
    ForCoursesEntries(named, CheckStep(fs));
    ForCoursesEntries(first, RefreshStep(fs, env));
    var es := Entries(named);
    var es2 := Entries(AssignDirAndFileNames(courses, fs, env).courses);
    forall j | 0 <= j < |es|
      ensures forall k :: 0 <= k < |es2[j].1.children| ==>
                es2[j].1.children[k].downloaded ==
                  (LooksDone(fs, es2[j].0, es2[j].1) || GroupDir(es2[j].0, es2[j].1) + [es2[j].1.children[k].filename] in fs.files)
    {
      GroupMarks(fs, env, es[j].0, es[j].1);
    }
  }

  lemma GroupMarks(fs: FileSystem, env: Environment, courseDir: string, group: CourseWorkMaterial)
    ensures var out := RefreshGroup(fs, env, courseDir, CheckGroup(fs, courseDir, group).0).0;
            forall k :: 0 <= k < |out.children| ==>
              out.children[k].downloaded ==
                (LooksDone(fs, courseDir, out) || GroupDir(courseDir, out) + [out.children[k].filename] in fs.files)
  {
    if LooksDone(fs, courseDir, group) {
      DoneGroupKept(fs, env, courseDir, group);
    } else {
      var checked := group.(children := Mark(group.children, false));
      assert CheckGroup(fs, courseDir, group).0 == checked;
      assert LooksDone(fs, courseDir, checked) == LooksDone(fs, courseDir, group);
      StaleGroupMarks(fs, env, courseDir, checked);
    }
  }

  /** A course-work material that the first pass marked missing is rechecked
      file by file, unless it has no files at all. */
  lemma StaleGroupMarks(fs: FileSystem, env: Environment, courseDir: string, checked: CourseWorkMaterial)
    requires !LooksDone(fs, courseDir, checked)
    requires forall k :: 0 <= k < |checked.children| ==> !checked.children[k].downloaded
    ensures var out := RefreshGroup(fs, env, courseDir, checked).0;
            forall k :: 0 <= k < |out.children| ==>
              out.children[k].downloaded ==
                (LooksDone(fs, courseDir, out) || GroupDir(courseDir, out) + [out.children[k].filename] in fs.files)
  {
    if |checked.children| > 0 {
      assert !checked.children[0].downloaded;
      var named := FreshNames(checked.children, env);
      RefreshUnfold(fs, env, courseDir, checked, named);
      RecheckMarks(fs, courseDir, checked, named);
    }
  }

  lemma RefreshUnfold(fs: FileSystem, env: Environment, courseDir: string, group: CourseWorkMaterial,
                      named: seq<Material>)
    requires SomeMissing(group) && named == FreshNames(group.children, env)
    ensures |named| == |group.children|
    ensures RefreshGroup(fs, env, courseDir, group).0 == group.(children := Recheck(fs, GroupDir(courseDir, group), named).0)
  {
  }

  /** A course-work material whose directory looks complete leaves the second
      pass as the first pass marked it: every file downloaded. */
  lemma DoneGroupKept(fs: FileSystem, env: Environment, courseDir: string, group: CourseWorkMaterial)
    requires LooksDone(fs, courseDir, group)
    ensures var checked := CheckGroup(fs, courseDir, group).0;
            && RefreshGroup(fs, env, courseDir, checked).0 == checked
            && forall k :: 0 <= k < |checked.children| ==> checked.children[k].downloaded
  {
    var checked := CheckGroup(fs, courseDir, group).0;
    assert !SomeMissing(checked);
  }

  /** After a recheck of a directory that does not look complete, each mark
      says whether the file exists. */
  lemma RecheckMarks(fs: FileSystem, courseDir: string, group: CourseWorkMaterial, named: seq<Material>)
    requires |named| == |group.children| && !LooksDone(fs, courseDir, group)
    ensures var out := group.(children := Recheck(fs, GroupDir(courseDir, group), named).0);
            forall k :: 0 <= k < |out.children| ==>
              out.children[k].downloaded ==
                (LooksDone(fs, courseDir, out) || GroupDir(courseDir, out) + [out.children[k].filename] in fs.files)
  {
    var out := group.(children := Recheck(fs, GroupDir(courseDir, group), named).0);
    assert GroupDir(courseDir, out) == GroupDir(courseDir, group);
  }
}