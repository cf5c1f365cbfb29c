/** Naming the directories of courses and course-work materials
    (`assign_directory_names`) and the files of one course-work material
    (`assign_file_names`). */
module Assign {
  import opened Seqs
  import opened Sorting
  import opened Naming
  import opened MimeTypes
  import opened Catalog

  // ---------------------------------------------------------------------------
  // assign_directory_names

  /** A folder with its directory name forgotten: what renaming leaves alone. */
  function Unnamed<C>(f: Folder<C>): Folder<C>
  {
    f.(dirname := "")
  }

  /** The sanitised title a folder's directory name starts from. */
  function DirTitle<C>(printable: char -> bool): Folder<C> -> string
  {
    (f: Folder<C>) => TitleToFilename(f.title, printable)
  }

  /** `assign_directory_names`: the folders in order of creation time (equal
      times keeping their order), each named after its sanitised title, with
      repeated titles told apart by counters in that order. */
  function AssignDirectoryNames<C>(items: seq<Folder<C>>, printable: char -> bool): (r: seq<Folder<C>>)
    ensures |r| == |items|
    ensures SortedBy(r, FolderTime)
    ensures forall k :: Map(WithKey(r, FolderTime, k), Unnamed) == Map(WithKey(items, FolderTime, k), Unnamed)
    ensures forall i :: 0 <= i < |r| ==> r[i].dirname == UniqueName(Map(r, DirTitle(printable)), i, false)
  {
    var sorted := SortBy(items, FolderTime);
    var titles := Map(sorted, DirTitle(printable));
    var r := WithDirnames(sorted, MakeUniqueNames(titles, false));
    RenamedFolders(items, sorted, r, printable);
    r
  }

  /** The folders with the given directory names, one each. */
  function WithDirnames<C>(items: seq<Folder<C>>, names: seq<string>): (r: seq<Folder<C>>)
    requires |names| == |items|
    ensures |r| == |items|
    ensures forall i :: 0 <= i < |r| ==> r[i].dirname == names[i] && Unnamed(r[i]) == Unnamed(items[i])
  {
    seq(|items|, i requires 0 <= i < |items| => items[i].(dirname := names[i]))
  }

  lemma RenamedFolders<C>(items: seq<Folder<C>>, sorted: seq<Folder<C>>, r: seq<Folder<C>>, printable: char -> bool)
    requires SortedBy(sorted, FolderTime)
    requires forall k :: WithKey(sorted, FolderTime, k) == WithKey(items, FolderTime, k)
    requires |r| == |sorted| && forall i :: 0 <= i < |r| ==> Unnamed(r[i]) == Unnamed(sorted[i])
    ensures SortedBy(r, FolderTime)
    ensures forall k :: Map(WithKey(r, FolderTime, k), Unnamed) == Map(WithKey(items, FolderTime, k), Unnamed)
    ensures Map(r, DirTitle(printable)) == Map(sorted, DirTitle(printable))
  {
    assert forall i :: 0 <= i < |r| ==> r[i].creationTime == sorted[i].creationTime && r[i].title == sorted[i].title by {
      forall i | 0 <= i < |r|
        ensures r[i].creationTime == sorted[i].creationTime && r[i].title == sorted[i].title
      {
        assert Unnamed(r[i]).creationTime == Unnamed(sorted[i]).creationTime;
        assert Unnamed(r[i]).title == Unnamed(sorted[i]).title;
      }
    }
    SortedBySameKeys(sorted, FolderTime, r, FolderTime);
    forall k
      ensures Map(WithKey(r, FolderTime, k), Unnamed) == Map(WithKey(items, FolderTime, k), Unnamed)
    {
      FilterMapPointwise(r, sorted, HasKey(FolderTime, k), HasKey(FolderTime, k), Unnamed, Unnamed);
    }
  }

  /** Two folders whose titles sanitise alike never share a directory. */
  lemma SameTitleDifferentDirectories<C>(items: seq<Folder<C>>, printable: char -> bool, i: nat, j: nat)
    requires i < j < |items|
    ensures var r := AssignDirectoryNames(items, printable);
            TitleToFilename(r[i].title, printable) == TitleToFilename(r[j].title, printable) ==>
              r[i].dirname != r[j].dirname
  {
    var r := AssignDirectoryNames(items, printable);
    var titles := Map(r, DirTitle(printable));
    if titles[i] == titles[j] {
      RepeatedOccurrencesDiffer(titles, false, i, j);
    }
  }

  // ---------------------------------------------------------------------------
  // assign_file_names

  /** What a material keeps from its input through `assign_file_names`. */
  function Origin(m: Material): (string, string, bool)
  {
    (m.id, m.title, m.downloaded)
  }

  /** The material as Drive describes it, named after its sanitised title. */
  function Fetched(m: Material, env: Environment): Material
  {
    var meta := env.metadata(m.id);
    m.(size := meta.size, creationTime := meta.createdTime, mimeType := meta.mimeType,
       exportTypes := meta.exportTypes, filename := TitleToFilename(m.title, env.printable))
  }

  /** The type a material is saved as: Drive's own for a file with a size, the
      chosen export format for a native document. */
  function SavedType(meta: FileMetadata): string
  {
    if NeedsExport(meta.size) then ChooseMimeType(meta.exportTypes, meta.mimeType) else meta.mimeType
  }

  /** The export format settled and the extension added. */
  function Typed(m: Material, env: Environment): Material
  {
    var mimeType := if NeedsExport(m.size) then ChooseMimeType(m.exportTypes, m.mimeType) else m.mimeType;
    m.(mimeType := mimeType, filename := AddExtension(m.filename, mimeType, env.extensionsOf, env.lowerChar))
  }

  function FetchWith(env: Environment): Material -> Material
  {
    (m: Material) => Fetched(m, env)
  }

  function TypeWith(env: Environment): Material -> Material
  {
    (m: Material) => Typed(m, env)
  }

  function FileName(m: Material): string { m.filename }

  /** The name a material's file starts from before counters: its sanitised
      title with the extension of its type. */
  function BaseName(env: Environment): Material -> string
  {
    (m: Material) => AddExtension(TitleToFilename(m.title, env.printable), m.mimeType, env.extensionsOf, env.lowerChar)
  }

  /** The materials whose Drive creation time is `k`. */
  function CreatedAt(env: Environment, k: string): Material -> bool
  {
    (m: Material) => env.metadata(m.id).createdTime == k
  }

  /** `assign_file_names`: every material gets Drive's size, creation time and
      export links; the materials are put in order of creation time (equal
      times keeping their order); each gets the type it is saved as, and a file
      name made of its sanitised title and the extension of that type, with
      repeated names told apart by counters placed before the extension. */
  function AssignFileNames(materials: seq<Material>, env: Environment): (r: seq<Material>)
    ensures |r| == |materials|
    ensures SortedBy(r, MaterialTime)
    ensures forall k :: Map(WithKey(r, MaterialTime, k), Origin) == Map(Filter(materials, CreatedAt(env, k)), Origin)
    ensures forall i :: 0 <= i < |r| ==>
              var meta := env.metadata(r[i].id);
              && r[i].size == meta.size
              && r[i].creationTime == meta.createdTime
              && r[i].exportTypes == meta.exportTypes
              && r[i].mimeType == SavedType(meta)
    ensures forall i :: 0 <= i < |r| ==> r[i].filename == UniqueName(Map(r, BaseName(env)), i, true)
  {
    var fetched := Map(materials, FetchWith(env));
    var sorted := SortBy(fetched, MaterialTime);
    var typed := Map(sorted, TypeWith(env));
    var r := WithFilenames(typed, MakeUniqueNames(Map(typed, FileName), true));
    FetchedInOrder(materials, env, fetched, sorted);
    FetchedAreFixed(materials, env, fetched, sorted);
    RenamedMaterials(sorted, typed, r, env);
    r
  }

  /** The materials with the given file names, one each. */
  function WithFilenames(materials: seq<Material>, names: seq<string>): (r: seq<Material>)
    requires |names| == |materials|
    ensures |r| == |materials|
    ensures forall i :: 0 <= i < |r| ==> r[i] == materials[i].(filename := names[i])
  {
    seq(|materials|, i requires 0 <= i < |materials| => materials[i].(filename := names[i]))
  }

  lemma FetchedInOrder(materials: seq<Material>, env: Environment, fetched: seq<Material>, sorted: seq<Material>)
    requires fetched == Map(materials, FetchWith(env))
    requires forall k :: WithKey(sorted, MaterialTime, k) == WithKey(fetched, MaterialTime, k)
    ensures forall k :: Map(WithKey(sorted, MaterialTime, k), Origin) == Map(Filter(materials, CreatedAt(env, k)), Origin)
  {
    forall k
      ensures Map(WithKey(fetched, MaterialTime, k), Origin) == Map(Filter(materials, CreatedAt(env, k)), Origin)
    {
      FetchedWithKey(materials, env, fetched, k);
    }
  }

  lemma FetchedWithKey(materials: seq<Material>, env: Environment, fetched: seq<Material>, k: string)
    requires fetched == Map(materials, FetchWith(env))
    ensures Map(WithKey(fetched, MaterialTime, k), Origin) == Map(Filter(materials, CreatedAt(env, k)), Origin)
  {
    forall i | 0 <= i < |fetched|
      ensures HasKey(MaterialTime, k)(fetched[i]) == CreatedAt(env, k)(materials[i])
      ensures Origin(fetched[i]) == Origin(materials[i])
    {
      assert fetched[i] == FetchWith(env)(materials[i]);
    }
    FilterMapPointwise(fetched, materials, HasKey(MaterialTime, k), CreatedAt(env, k), Origin, Origin);
  }

  /** Fetching twice changes nothing, so every fetched material is a fixed point. */
  lemma FetchedAreFixed(materials: seq<Material>, env: Environment, fetched: seq<Material>, sorted: seq<Material>)
    requires fetched == Map(materials, FetchWith(env))
    requires multiset(sorted) == multiset(fetched)
    ensures forall m :: m in sorted ==> m == Fetched(m, env)
  {
    forall i | 0 <= i < |fetched|
      ensures Fetched(fetched[i], env) == fetched[i]
    {
      FetchIdempotent(materials[i], env);
    }
    forall m | m in sorted
      ensures m == Fetched(m, env)
    {
      assert m in multiset(sorted);
      assert m in fetched;
    }
  }

  lemma FetchIdempotent(m: Material, env: Environment)
    ensures Fetched(Fetched(m, env), env) == Fetched(m, env)
  {
  }

  lemma RenamedMaterials(sorted: seq<Material>, typed: seq<Material>, r: seq<Material>, env: Environment)
    requires SortedBy(sorted, MaterialTime)
    requires forall m :: m in sorted ==> m == Fetched(m, env)
    requires typed == Map(sorted, TypeWith(env))
    requires |r| == |typed| && forall i :: 0 <= i < |r| ==> r[i] == typed[i].(filename := r[i].filename)
    ensures SortedBy(r, MaterialTime)
    ensures forall k :: Map(WithKey(r, MaterialTime, k), Origin) == Map(WithKey(sorted, MaterialTime, k), Origin)
    ensures forall i :: 0 <= i < |r| ==>
              var meta := env.metadata(r[i].id);
              && r[i].size == meta.size
              && r[i].creationTime == meta.createdTime
              && r[i].exportTypes == meta.exportTypes
              && r[i].mimeType == SavedType(meta)
    ensures Map(r, BaseName(env)) == Map(typed, FileName)
  {
    SortedBySameKeys(sorted, MaterialTime, r, MaterialTime);
    forall k
      ensures Map(WithKey(r, MaterialTime, k), Origin) == Map(WithKey(sorted, MaterialTime, k), Origin)
    {
      FilterMapPointwise(r, sorted, HasKey(MaterialTime, k), HasKey(MaterialTime, k), Origin, Origin);
    }
    forall i | 0 <= i < |r|
      ensures var meta := env.metadata(r[i].id);
              && r[i].size == meta.size
              && r[i].creationTime == meta.createdTime
              && r[i].exportTypes == meta.exportTypes
              && r[i].mimeType == SavedType(meta)
      ensures BaseName(env)(r[i]) == FileName(typed[i])
    {
      assert sorted[i] in sorted;
      assert sorted[i] == Fetched(sorted[i], env);
    }
  }

  /** Two materials whose base names agree never share a file name. */
  lemma SameBaseNameDifferentFiles(materials: seq<Material>, env: Environment, i: nat, j: nat)
    requires i < j < |materials|
    ensures var r := AssignFileNames(materials, env);
            BaseName(env)(r[i]) == BaseName(env)(r[j]) ==> r[i].filename != r[j].filename
  {
    var r := AssignFileNames(materials, env);
    var bases := Map(r, BaseName(env));
    if bases[i] == bases[j] {
      RepeatedOccurrencesDiffer(bases, true, i, j);
    }
  }

  /** File names need not be distinct: when the base names, in order of
      creation, are `b`, `b` and `b_001` for a dotless `b`, the first and the
      third material both get `b_001`. */
  lemma FileNamesCanCollide(materials: seq<Material>, env: Environment, b: string)
    requires '.' !in b
    requires Map(AssignFileNames(materials, env), BaseName(env)) == [b, b, b + CounterTag(1)]
    ensures var r := AssignFileNames(materials, env);
            r[0].filename == b + CounterTag(1) && r[2].filename == b + CounterTag(1)
  {
    CollidingFileNames(AssignFileNames(materials, env), env, b);
  }

  lemma CollidingFileNames(r: seq<Material>, env: Environment, b: string)
    requires '.' !in b && Map(r, BaseName(env)) == [b, b, b + CounterTag(1)]
    requires forall i :: 0 <= i < |r| ==> r[i].filename == UniqueName(Map(r, BaseName(env)), i, true)
    ensures r[0].filename == b + CounterTag(1) && r[2].filename == b + CounterTag(1)
  {
    TaggedMeetsListed(Map(r, BaseName(env)), b);
  }

  /** A base name no other material shares is used as it is. */
  lemma UniqueBaseNameKept(materials: seq<Material>, env: Environment, i: nat)
    requires i < |materials|
    ensures var r := AssignFileNames(materials, env);
            Occurrences(Map(r, BaseName(env)), BaseName(env)(r[i])) == 1 ==> r[i].filename == BaseName(env)(r[i])
  {
  }
}
