/** One organizing run over a directory held in memory: validate the path,
    provision the category folders, snapshot the top-level regular files,
    classify and move each one under a collision-free name, and summarise. */
module Organizer {
  import opened Classifier
  import opened PathSplit
  import opened Naming
  import opened Summary

  /** One successful move: the file, the category folder it went to, and the
      name it has there. */
  datatype Moved = Moved(item: string, category: string, name: string)

  /** How a run ends. */
  datatype Report =
    | NotADirectory                                  // the path is missing or not a directory
    | ProvisionFailed(folder: string)                // creating a category folder raised
    | NoFilesFound                                   // the snapshot was empty
    | Organized(lines: seq<(string, nat)>, total: nat) // the per-category summary and its total

  /** The files a log has moved. */
  function MovedItems(log: seq<Moved>): set<string>
  {
    set m | m in log :: m.item
  }

  /** The names the log has put into folder `c`. */
  function NamesInto(log: seq<Moved>, c: string): set<string>
  {
    if log == [] then {}
    else NamesInto(log[..|log| - 1], c) + (if log[|log| - 1].category == c then {log[|log| - 1].name} else {})
  }

  /** How many moves of the log went into folder `c`. */
  function CountInto(log: seq<Moved>, c: string): nat
  {
    if log == [] then 0
    else CountInto(log[..|log| - 1], c) + (if log[|log| - 1].category == c then 1 else 0)
  }

  /** Appending a move extends the names and the count of its folder only. */
  lemma LogAppend(log: seq<Moved>, m: Moved)
    ensures MovedItems(log + [m]) == MovedItems(log) + {m.item}
    ensures forall c :: NamesInto(log + [m], c) == NamesInto(log, c) + (if m.category == c then {m.name} else {})
    ensures forall c :: CountInto(log + [m], c) == CountInto(log, c) + (if m.category == c then 1 else 0)
  {
    assert (log + [m])[..|log|] == log;
  }

  /** A move went to the category of the file's extension, under the file's own
      name or one of its numbered candidates. */
  ghost predicate WellFormedMove(m: Moved)
  {
    var parts := SplitExt(m.item);
    && m.category == GetCategory(parts.1)
    && (m.name == m.item || exists n: nat :: 1 <= n && m.name == Candidate(parts.0, n, parts.1))
  }

  /** No file appears twice in the log. */
  ghost predicate DistinctItems(log: seq<Moved>)
  {
    forall a, b :: 0 <= a < b < |log| ==> log[a].item != log[b].item
  }

  /** After the first `i` snapshot entries: the log holds, once each, exactly
      those entries whose move succeeded, each moved to its
      category under its own name or a numbered candidate. */
  ghost predicate Processed(snapshot: seq<string>, i: nat, succeeds: string -> bool, log: seq<Moved>)
  {
    && i <= |snapshot|
    && |log| <= i
    && (forall m :: m in log ==> m.item in snapshot[..i] && succeeds(m.item) && WellFormedMove(m))
    && (forall j :: 0 <= j < i && succeeds(snapshot[j]) ==> snapshot[j] in MovedItems(log))
    && DistinctItems(log)
  }

  /** The directory after the moves of `log` from (`files0`, `folders0`): the
      moved files are gone from the top level (FilesPlaced), each folder
      gained exactly the names moved into it, and no name replaced one already
      there (FoldersPlaced). */
  ghost predicate Placed(files0: set<string>, folders0: map<string, set<string>>,
                         files: set<string>, folders: map<string, set<string>>, log: seq<Moved>)
  {
    FilesPlaced(files0, files, log) && FoldersPlaced(folders0, folders, log)
  }

  ghost predicate FilesPlaced(files0: set<string>, files: set<string>, log: seq<Moved>)
  {
    files == files0 - MovedItems(log)
  }

  ghost predicate FoldersPlaced(folders0: map<string, set<string>>, folders: map<string, set<string>>, log: seq<Moved>)
  {
    && (forall c :: c in folders <==> c in folders0)
    && (forall c :: c in folders ==> FolderPlaced(folders0[c], folders[c], log, c))
  }

  /** Folder `c` holds what it held before plus the names moved into it, one
      new name per move. */
  ghost predicate FolderPlaced(before: set<string>, contents: set<string>, log: seq<Moved>, c: string)
  {
    contents == before + NamesInto(log, c) && |contents| == |before| + CountInto(log, c)
  }

  /** Each category's count grew by the number of moves into it. */
  ghost predicate Counted(counts0: map<string, nat>, counts: map<string, nat>, log: seq<Moved>)
  {
    forall c :: c in counts0 ==> c in counts && counts[c] == counts0[c] + CountInto(log, c)
  }

  /** Once the whole snapshot is processed, exactly its entries whose move
      succeeded have been moved, each once. */
  lemma ProcessedAll(snapshot: seq<string>, succeeds: string -> bool, log: seq<Moved>, files0: set<string>)
    requires Processed(snapshot, |snapshot|, succeeds, log)
    requires forall x :: x in snapshot <==> x in files0
    ensures |log| <= |snapshot|
    ensures DistinctItems(log)
    ensures forall m :: m in log ==> WellFormedMove(m)
    ensures MovedItems(log) == set x | x in files0 && succeeds(x)
  {
    assert snapshot[..|snapshot|] == snapshot;
  }

  /** An entry not yet reached has not been moved. */
  lemma NotYetMoved(snapshot: seq<string>, i: nat, succeeds: string -> bool, log: seq<Moved>)
    requires Processed(snapshot, i, succeeds, log) && Distinct(snapshot) && i < |snapshot|
    ensures snapshot[i] !in MovedItems(log)
  {
    forall m | m in log
      ensures m.item != snapshot[i]
    {
      assert m.item in snapshot[..i];
    }
  }

  lemma ProcessedSkip(snapshot: seq<string>, i: nat, succeeds: string -> bool, log: seq<Moved>)
    requires Processed(snapshot, i, succeeds, log) && i < |snapshot| && !succeeds(snapshot[i])
    ensures Processed(snapshot, i + 1, succeeds, log)
  {
    assert snapshot[..i + 1] == snapshot[..i] + [snapshot[i]];
  }

  lemma ProcessedMove(snapshot: seq<string>, i: nat, succeeds: string -> bool, log: seq<Moved>, m: Moved)
    requires Processed(snapshot, i, succeeds, log) && Distinct(snapshot) && i < |snapshot|
    requires m.item == snapshot[i] && succeeds(m.item) && WellFormedMove(m)
    ensures Processed(snapshot, i + 1, succeeds, log + [m])
  {
    NotYetMoved(snapshot, i, succeeds, log);
    LogAppend(log, m);
    assert snapshot[..i + 1] == snapshot[..i] + [snapshot[i]];
    forall a, b | 0 <= a < b < |log| + 1
      ensures (log + [m])[a].item != (log + [m])[b].item
    {
      if b == |log| {
        assert log[a] in log;
      }
    }
  }

  lemma PlacedMove(files0: set<string>, folders0: map<string, set<string>>,
                   files: set<string>, folders: map<string, set<string>>, log: seq<Moved>, m: Moved)
    requires Placed(files0, folders0, files, folders, log)
    requires m.item in files && m.category in folders && m.name !in folders[m.category]
    ensures Placed(files0, folders0, files - {m.item},
                   folders[m.category := folders[m.category] + {m.name}], log + [m])
  {
    FilesMove(files0, files, log, m);
    FoldersMove(folders0, folders, log, m);
  }

  lemma FilesMove(files0: set<string>, files: set<string>, log: seq<Moved>, m: Moved)
    requires FilesPlaced(files0, files, log)
    ensures FilesPlaced(files0, files - {m.item}, log + [m])
  {
    LogAppend(log, m);
  }

  lemma FoldersMove(folders0: map<string, set<string>>, folders: map<string, set<string>>, log: seq<Moved>, m: Moved)
    requires FoldersPlaced(folders0, folders, log)
    requires m.category in folders && m.name !in folders[m.category]
    ensures FoldersPlaced(folders0, folders[m.category := folders[m.category] + {m.name}], log + [m])
  {
    var folders' := folders[m.category := folders[m.category] + {m.name}];
    forall c ensures c in folders' <==> c in folders0 {
    }
    forall c | c in folders'
      ensures FolderPlaced(folders0[c], folders'[c], log + [m], c)
    {
      FolderMove(folders0, folders, log, m, c);
    }
  }

  /** One folder's share of FoldersMove. */
  lemma FolderMove(folders0: map<string, set<string>>, folders: map<string, set<string>>, log: seq<Moved>, m: Moved, c: string)
    requires c in folders0 && c in folders && FolderPlaced(folders0[c], folders[c], log, c)
    requires m.category in folders && m.name !in folders[m.category]
    ensures FolderPlaced(folders0[c], folders[m.category := folders[m.category] + {m.name}][c], log + [m], c)
  {
    LogAppend(log, m);
  }

  lemma CountedMove(counts0: map<string, nat>, counts: map<string, nat>, log: seq<Moved>, m: Moved)
    requires Counted(counts0, counts, log) && m.category in counts
    ensures Counted(counts0, counts[m.category := counts[m.category] + 1], log + [m])
  {
    LogAppend(log, m);
  }

  /** Two count maps that agree on the listed names have the same total. */
  lemma {:induction false} TotalAgrees(counts: map<string, nat>, counts': map<string, nat>, names: seq<string>)
    requires forall c :: c in names ==> c in counts && c in counts' && counts[c] == counts'[c]
    ensures Total(counts, names) == Total(counts', names)
  {
    if names != [] {
      TotalAgrees(counts, counts', names[..|names| - 1]);
    }
  }

  /** A successful move keeps the four loop invariants. */
  lemma EntryMoved(snapshot: seq<string>, i: nat, succeeds: string -> bool, log: seq<Moved>,
                   files0: set<string>, folders0: map<string, set<string>>,
                   files: set<string>, folders: map<string, set<string>>,
                   counts0: map<string, nat>, counts: map<string, nat>, m: Moved)
    requires Processed(snapshot, i, succeeds, log) && Distinct(snapshot) && i < |snapshot|
    requires m.item == snapshot[i] && succeeds(m.item) && WellFormedMove(m)
    requires Placed(files0, folders0, files, folders, log)
    requires m.item in files && m.category in folders && m.name !in folders[m.category]
    requires Counted(counts0, counts, log) && m.category in counts
    requires Resolved(folders0, log)
    requires IsResolved(folders[m.category], m.item, SplitExt(m.item).0, SplitExt(m.item).1, m.name)
    ensures Processed(snapshot, i + 1, succeeds, log + [m])
    ensures Placed(files0, folders0, files - {m.item}, folders[m.category := folders[m.category] + {m.name}], log + [m])
    ensures Counted(counts0, counts[m.category := counts[m.category] + 1], log + [m])
    ensures Resolved(folders0, log + [m])
  {
    ProcessedMove(snapshot, i, succeeds, log, m);
    PlacedMove(files0, folders0, files, folders, log, m);
    CountedMove(counts0, counts, log, m);
    ResolvedMove(folders0, folders, log, m);
  }

  /** The total over any list of distinct names that covers every category
      grows by one per logged move. */
  lemma {:induction false} TotalCounted(counts0: map<string, nat>, counts: map<string, nat>, log: seq<Moved>, names: seq<string>)
    requires Counted(counts0, counts, log)
    requires Distinct(names) && forall c :: c in names ==> c in counts0
    requires forall m :: m in log ==> m.category in names
    ensures Total(counts, names) == Total(counts0, names) + |log|
  {
    if log == [] {
      TotalAgrees(counts0, counts, names);
    } else {
      var init, m := log[..|log| - 1], log[|log| - 1];
      assert log == init + [m];
      LogAppend(init, m);
      var c := m.category;
      var previous := counts[c := counts[c] - 1];
      assert Counted(counts0, previous, init);
      TotalCounted(counts0, previous, init, names);
      TotalIncrement(previous, names, c);
      TotalAgrees(previous[c := previous[c] + 1], counts, names);
    }
  }

  /** A sequence without repeats has as many elements as it has members. */
  lemma {:induction false} DistinctCardinality(s: seq<string>)
    requires Distinct(s)
    ensures |set x | x in s| == |s|
  {
    if s != [] {
      var init := s[..|s| - 1];
      DistinctCardinality(init);
      assert (set x | x in s) == (set x | x in init) + {s[|s| - 1]};
    }
  }

  /** Every folder holds what it held in `folders0` (nothing, for a folder
      made since) plus the names the log moved into it, one new name per move. */
  ghost predicate Grown(folders0: map<string, set<string>>, folders: map<string, set<string>>, log: seq<Moved>)
  {
    forall c :: c in folders ==>
      && folders[c] == Before(folders0, c) + NamesInto(log, c)
      && |folders[c]| == |Before(folders0, c)| + CountInto(log, c)
  }

  /** Provisioning alone keeps every folder's contents and adds empty ones. */
  lemma GrownByProvision(folders0: map<string, set<string>>, folders: map<string, set<string>>)
    requires forall c :: c in folders0 ==> c in folders && folders[c] == folders0[c]
    requires forall c :: c in folders && c !in folders0 ==> folders[c] == {}
    ensures Grown(folders0, folders, [])
  {
  }

  /** Provisioning followed by the moves of `log`. */
  lemma GrownByRun(folders0: map<string, set<string>>, provisioned: map<string, set<string>>,
                   folders: map<string, set<string>>, log: seq<Moved>)
    requires forall c :: c in folders0 ==> c in provisioned && provisioned[c] == folders0[c]
    requires forall c :: c in provisioned && c !in folders0 ==> provisioned[c] == {}
    requires FoldersPlaced(provisioned, folders, log)
    ensures Grown(folders0, folders, log)
  {
    forall c | c in folders
      ensures FolderPlaced(Before(folders0, c), folders[c], log, c)
    {
      assert c in provisioned;
    }
  }

  /** What folder `c` of `folders0` starts out holding: nothing, for a folder
      that does not exist there. */
  function Before(folders0: map<string, set<string>>, c: string): set<string>
  {
    if c in folders0 then folders0[c] else {}
  }

  /** Move `idx` of the log took the name the probe loop chooses against its
      folder as that folder was then: its starting names plus the names the
      earlier moves put there. */
  ghost predicate ResolvedAt(folders0: map<string, set<string>>, log: seq<Moved>, idx: int)
    requires 0 <= idx < |log|
  {
    var m := log[idx];
    IsResolved(Before(folders0, m.category) + NamesInto(log[..idx], m.category),
               m.item, SplitExt(m.item).0, SplitExt(m.item).1, m.name)
  }

  /** Every move of the log took the least free name. */
  ghost predicate Resolved(folders0: map<string, set<string>>, log: seq<Moved>)
  {
    forall idx :: 0 <= idx < |log| ==> ResolvedAt(folders0, log, idx)
  }

  /** A move whose name was resolved against its folder's current contents
      extends a resolved log. */
  lemma ResolvedMove(folders0: map<string, set<string>>, folders: map<string, set<string>>, log: seq<Moved>, m: Moved)
    requires Resolved(folders0, log) && FoldersPlaced(folders0, folders, log)
    requires m.category in folders
    requires IsResolved(folders[m.category], m.item, SplitExt(m.item).0, SplitExt(m.item).1, m.name)
    ensures Resolved(folders0, log + [m])
  {
    forall idx | 0 <= idx < |log| + 1
      ensures ResolvedAt(folders0, log + [m], idx)
    {
      if idx < |log| {
        ResolvedKept(folders0, log, m, idx);
      } else {
        ResolvedLast(folders0, folders, log, m);
      }
    }
  }

  /** Appending a move leaves the earlier moves resolved. */
  lemma ResolvedKept(folders0: map<string, set<string>>, log: seq<Moved>, m: Moved, idx: int)
    requires 0 <= idx < |log| && ResolvedAt(folders0, log, idx)
    ensures ResolvedAt(folders0, log + [m], idx)
  {
    assert (log + [m])[..idx] == log[..idx];
    assert (log + [m])[idx] == log[idx];
  }

  /** The appended move was resolved against its folder as the log left it. */
  lemma ResolvedLast(folders0: map<string, set<string>>, folders: map<string, set<string>>, log: seq<Moved>, m: Moved)
    requires FoldersPlaced(folders0, folders, log)
    requires m.category in folders
    requires IsResolved(folders[m.category], m.item, SplitExt(m.item).0, SplitExt(m.item).1, m.name)
    ensures ResolvedAt(folders0, log + [m], |log|)
  {
    var c := m.category;
    assert (log + [m])[..|log|] == log;
    assert (log + [m])[|log|] == m;
    assert FolderPlaced(folders0[c], folders[c], log, c);
    assert Before(folders0, c) + NamesInto(log, c) == folders[c];
  }

  /** Resolving against the provisioned folders is resolving against the
      original ones, since provisioning adds only empty folders. */
  lemma ResolvedByRun(folders0: map<string, set<string>>, provisioned: map<string, set<string>>, log: seq<Moved>)
    requires forall c :: c in folders0 ==> c in provisioned && provisioned[c] == folders0[c]
    requires forall c :: c in provisioned && c !in folders0 ==> provisioned[c] == {}
    requires Resolved(provisioned, log)
    ensures Resolved(folders0, log)
  {
    forall idx | 0 <= idx < |log|
      ensures ResolvedAt(folders0, log, idx)
    {
      assert ResolvedAt(provisioned, log, idx);
      assert Before(provisioned, log[idx].category) == Before(folders0, log[idx].category);
    }
  }

  /** The summary matches the log: it lists every category with a positive
      number of moves into it, with that number, in alphabetical order, and
      the total is zero exactly when it lists nothing. */
  ghost predicate SummaryOf(lines: seq<(string, nat)>, total: nat, log: seq<Moved>)
  {
    && total == |log|
    && (forall c, n :: (c, n) in lines <==> c in CategoryNames && n == CountInto(log, c) && n > 0)
    && (forall i, j :: 0 <= i < j < |lines| ==> LexLess(lines[i].0, lines[j].0))
    && (total == 0 <==> lines == [])
  }

  /** Counting from zero and summarising over the sorted names yields the
      summary of the log. */
  lemma SummaryOfCounts(zeros: map<string, nat>, counts: map<string, nat>, log: seq<Moved>,
                        sorted: seq<string>, lines: seq<(string, nat)>, total: nat)
    requires forall c :: c in CategoryNames ==> c in zeros && zeros[c] == 0
    requires Counted(zeros, counts, log)
    requires forall m :: m in log ==> m.category in CategoryNames
    requires Distinct(sorted) && forall x :: x in sorted <==> x in CategoryNames
    requires forall c, n :: (c, n) in lines <==> c in sorted && n == counts[c] && n > 0
    requires forall i, j :: 0 <= i < j < |lines| ==> LexLess(lines[i].0, lines[j].0)
    requires total == Total(counts, sorted)
    requires total == 0 <==> lines == []
    ensures SummaryOf(lines, total, log)
  {
    TotalZero(zeros, sorted);
    TotalCounted(zeros, counts, log, sorted);
    forall c | c in CategoryNames
      ensures counts[c] == CountInto(log, c)
    {
      assert c in zeros;
    }
  }

  /** Ensuring folder `c` succeeds from the state (`folders0`, `files0`): it
      exists already, or no file has its name and the system lets it be made. */
  ghost predicate CanEnsure(folders0: map<string, set<string>>, files0: set<string>, canCreate: string -> bool, c: string)
  {
    c in folders0 || (c !in files0 && canCreate(c))
  }

  /** `CategoryNames[k]` is the first category folder, in provisioning order,
      that cannot be ensured. */
  ghost predicate FirstBlocked(folders0: map<string, set<string>>, files0: set<string>, canCreate: string -> bool, k: int)
  {
    && 0 <= k < |CategoryNames|
    && !CanEnsure(folders0, files0, canCreate, CategoryNames[k])
    && forall j :: 0 <= j < k ==> CanEnsure(folders0, files0, canCreate, CategoryNames[j])
  }

  /** The target directory: whether the path names a directory, its top-level
      regular files, and its top-level subdirectories with the names each holds. */
  class Directory {
    var isDirectory: bool
    var files: set<string>
    var folders: map<string, set<string>>

    /** A top-level name is either a file or a folder, never both. */
    ghost predicate Valid()
      reads this
    {
      files !! folders.Keys
    }

    constructor (isDirectory: bool, files: set<string>, folders: map<string, set<string>>)
      requires files !! folders.Keys
      ensures Valid()
      ensures this.isDirectory == isDirectory && this.files == files && this.folders == folders
    {
      this.isDirectory := isDirectory;
      this.files := files;
      this.folders := folders;
    }

    /** Ensure-exists creation of one folder: an existing folder is kept as it
        is; a regular file of that name makes it fail; otherwise it succeeds
        exactly when `canCreate` says the folder could be made. */
    method EnsureFolder(name: string, canCreate: bool) returns (ok: bool)
      requires Valid()
      modifies this
      ensures Valid()
      ensures isDirectory == old(isDirectory) && files == old(files)
      ensures ok <==> name in old(folders) || (name !in old(files) && canCreate)
      ensures name in old(folders) ==> folders == old(folders)
      ensures ok && name !in old(folders) ==> folders == old(folders)[name := {}]
      ensures !ok ==> folders == old(folders)
    {
      if name in folders {
        ok := true;
      } else if name in files {
        ok := false;
      } else if canCreate {
        folders := folders[name := {}];
        ok := true;
      } else {
        ok := false;
      }
    }

    /** Ensure every category folder, in table order, then the fallback; stop
        at the first one that cannot be made. */
    method Provision(canCreate: string -> bool) returns (ok: bool, failed: string)
      requires Valid()
      modifies this
      ensures Valid()
      ensures isDirectory == old(isDirectory) && files == old(files)
      ensures forall c :: c in old(folders) ==> c in folders && folders[c] == old(folders)[c]
      ensures forall c :: c in folders && c !in old(folders) ==>
                c in CategoryNames && c !in old(files) && canCreate(c) && folders[c] == {}
      ensures ok <==> forall c :: c in CategoryNames ==> CanEnsure(old(folders), old(files), canCreate, c)
      ensures ok ==> forall c :: c in CategoryNames ==> c in folders
      ensures !ok ==> failed !in folders
      ensures !ok ==> exists k :: && FirstBlocked(old(folders), old(files), canCreate, k)
                                  && failed == CategoryNames[k]
                                  && (forall j :: 0 <= j < k ==> CategoryNames[j] in folders)
                                  && forall c :: c in folders && c !in old(folders) ==> c in CategoryNames[..k]
    {
      var names := CategoryNames;
      for i := 0 to |names|
        invariant Valid()
        invariant isDirectory == old(isDirectory) && files == old(files)
        invariant forall c :: c in old(folders) ==> c in folders && folders[c] == old(folders)[c]
        invariant forall c :: c in folders && c !in old(folders) ==>
                    c in names[..i] && c !in old(files) && canCreate(c) && folders[c] == {}
        invariant forall j :: 0 <= j < i ==> names[j] in folders && CanEnsure(old(folders), old(files), canCreate, names[j])
      {
        var made := EnsureFolder(names[i], canCreate(names[i]));
        if !made {
          assert FirstBlocked(old(folders), old(files), canCreate, i);
          return false, names[i];
        }
      }
      return true, "";
    }

    /** The snapshot of the top-level regular files, in whatever order the
        listing yields the entries: every file once, and no folder. */
    method ListFiles() returns (snapshot: seq<string>)
      ensures Distinct(snapshot)
      ensures forall x :: x in snapshot <==> x in files
      ensures |snapshot| == |files|
    {
      var remaining := files + folders.Keys;
      snapshot := [];
      while remaining != {}
        invariant forall x :: x in snapshot <==> x in files && x !in remaining
        invariant Distinct(snapshot)
        decreases |remaining|
      {
        var x :| x in remaining;
        if x in files {
          snapshot := snapshot + [x];
        }
        remaining := remaining - {x};
      }
      DistinctCardinality(snapshot);
      assert (set x | x in snapshot) == files;
    }

    /** The move of one file into a category folder under `name`. It succeeds
        when the outside world lets it (`succeeds`) and both ends exist; the
        file then leaves the top level and `name` joins the folder, and no
        other folder changes. A failed move changes nothing. */
    method MoveFile(item: string, category: string, name: string, succeeds: bool) returns (ok: bool)
      requires Valid()
      modifies this
      ensures Valid()
      ensures isDirectory == old(isDirectory)
      ensures ok == (succeeds && item in old(files) && category in old(folders))
      ensures ok ==> files == old(files) - {item}
      ensures ok ==> folders == old(folders)[category := old(folders)[category] + {name}]
      ensures !ok ==> files == old(files) && folders == old(folders)
    {
      ok := succeeds && item in files && category in folders;
      if ok {
        files := files - {item};
        folders := folders[category := folders[category] + {name}];
      }
    }

    /** Classify one top-level file, resolve its destination name against its
        category folder and move it there. */
    method ProcessFile(item: string, succeeds: bool) returns (moved: bool, category: string, name: string)
      requires Valid()
      requires item in files
      requires forall c :: c in CategoryNames ==> c in folders
      modifies this
      ensures Valid()
      ensures isDirectory == old(isDirectory) && folders.Keys == old(folders).Keys
      ensures category == GetCategory(SplitExt(item).1) && category in CategoryNames
      ensures IsResolved(old(folders)[category], item, SplitExt(item).0, SplitExt(item).1, name)
      ensures WellFormedMove(Moved(item, category, name))
      ensures moved == succeeds
      ensures moved ==> files == old(files) - {item}
      ensures moved ==> folders == old(folders)[category := old(folders)[category] + {name}]
      ensures !moved ==> files == old(files) && folders == old(folders)
    {
      var parts := SplitExt(item);
      var base, ext := parts.0, parts.1;
      category := GetCategory(ext);
      GetCategoryIsCategoryName(ext);
      name := ResolveName(folders[category], item, base, ext);
      moved := MoveFile(item, category, name, succeeds);
    }

    /** One turn of the processing loop: classify the next snapshot entry,
        resolve its name, try the move and, when it succeeds, log it and count
        it for its category. */
    method ProcessEntry(snapshot: seq<string>, i: nat, succeeds: string -> bool, counts: map<string, nat>,
                        ghost log: seq<Moved>, ghost files0: set<string>, ghost folders0: map<string, set<string>>,
                        ghost counts0: map<string, nat>)
      returns (counts': map<string, nat>, ghost log': seq<Moved>)
      requires Valid()
      requires Distinct(snapshot) && i < |snapshot|
      requires forall x :: x in snapshot ==> x in files0
      requires forall c :: c in CategoryNames ==> c in folders0 && c in counts0
      requires Processed(snapshot, i, succeeds, log)
      requires Placed(files0, folders0, files, folders, log)
      requires Counted(counts0, counts, log)
      requires Resolved(folders0, log)
      modifies this
      ensures Valid()
      ensures isDirectory == old(isDirectory)
      ensures Processed(snapshot, i + 1, succeeds, log')
      ensures Placed(files0, folders0, files, folders, log')
      ensures Counted(counts0, counts', log')
      ensures Resolved(folders0, log')
    {
      var item := snapshot[i];
      NotYetMoved(snapshot, i, succeeds, log);
      // the snapshot holds no folder, and no entry leaves the top level
      // before its own turn
      assert item in files && item !in folders;
      ghost var files1, folders1 := files, folders;
      var moved, category, name := ProcessFile(item, succeeds(item));
      if moved {
        var m := Moved(item, category, name);
        EntryMoved(snapshot, i, succeeds, log, files0, folders0, files1, folders1, counts0, counts, m);
        counts', log' := counts[category := counts[category] + 1], log + [m];
      } else {
        ProcessedSkip(snapshot, i, succeeds, log);
        counts', log' := counts, log;
      }
    }

    /** The processing loop over the snapshot. Each file moves at most once;
        a failed move only skips that file; each success adds one to the count
        of its category. */
    method ProcessFiles(snapshot: seq<string>, counts0: map<string, nat>, succeeds: string -> bool)
      returns (counts: map<string, nat>, ghost log: seq<Moved>)
      requires Valid()
      requires Distinct(snapshot)
      requires forall x :: x in snapshot <==> x in files
      requires forall c :: c in CategoryNames ==> c in folders && c in counts0
      modifies this
      ensures Valid()
      ensures isDirectory == old(isDirectory)
      ensures Counted(counts0, counts, log)
      ensures |log| <= |snapshot|
      ensures DistinctItems(log)
      ensures forall m :: m in log ==> WellFormedMove(m)
      ensures MovedItems(log) == set x | x in old(files) && succeeds(x)
      ensures Placed(old(files), old(folders), files, folders, log)
      ensures Resolved(old(folders), log)
    {
      counts, log := counts0, [];
      for i := 0 to |snapshot|
        invariant Valid()
        invariant isDirectory == old(isDirectory)
        invariant Processed(snapshot, i, succeeds, log)
        invariant Placed(old(files), old(folders), files, folders, log)
        invariant Counted(counts0, counts, log)
        invariant Resolved(old(folders), log)
      {
        counts, log := ProcessEntry(snapshot, i, succeeds, counts, log, old(files), old(folders), counts0);
      }
      ProcessedAll(snapshot, succeeds, log, old(files));
    }

    /** A run after provisioning, for a non-empty snapshot: start every
        category's count at zero, process the snapshot and summarise the counts over the sorted category names. */
    method MoveAndSummarize(snapshot: seq<string>, succeeds: string -> bool)
      returns (lines: seq<(string, nat)>, total: nat, ghost log: seq<Moved>)
      requires Valid()
      requires Distinct(snapshot) && forall x :: x in snapshot <==> x in files
      requires forall c :: c in CategoryNames ==> c in folders
      modifies this
      ensures Valid()
      ensures isDirectory == old(isDirectory)
      ensures DistinctItems(log)
      ensures forall m :: m in log ==> WellFormedMove(m)
      ensures MovedItems(log) == set x | x in old(files) && succeeds(x)
      ensures Placed(old(files), old(folders), files, folders, log)
      ensures Resolved(old(folders), log)
      ensures |log| <= |snapshot|
      ensures SummaryOf(lines, total, log)
    {
      var zeros: map<string, nat> := map c | c in CategoryNames :: 0;
      var counts;
      counts, log := ProcessFiles(snapshot, zeros, succeeds);
      var sorted := SortedCategoryNames();
      lines, total := Summarize(counts, sorted);
      forall m | m in log
        ensures m.category in CategoryNames
      {
        assert WellFormedMove(m);
        GetCategoryIsCategoryName(SplitExt(m.item).1);
      }
      SummaryOfCounts(zeros, counts, log, sorted, lines, total);
    }

    /** The whole run. `canCreate` says which missing folders the system lets
        the run create; `succeeds` says which files the system lets it move.
        The ghost `log` lists the successful moves, each once. */
    method Organize(canCreate: string -> bool, succeeds: string -> bool)
      returns (report: Report, ghost log: seq<Moved>)
      requires Valid()
      modifies this
      ensures Valid()
      ensures isDirectory == old(isDirectory)
      // an invalid path: nothing is created and nothing moves
      ensures !old(isDirectory) <==> report == NotADirectory
      ensures report.NotADirectory? ==> files == old(files) && folders == old(folders)
      // no file moves unless every category folder exists first
      ensures report.NotADirectory? || report.ProvisionFailed? || report.NoFilesFound? ==> log == []
      ensures report.ProvisionFailed? <==>
                old(isDirectory) && exists c :: c in CategoryNames && !CanEnsure(old(folders), old(files), canCreate, c)
      ensures report.ProvisionFailed? ==> report.folder !in folders
      // a failed provisioning stops at the first folder that cannot be made
      ensures report.ProvisionFailed? ==>
                exists k :: && FirstBlocked(old(folders), old(files), canCreate, k)
                            && report.folder == CategoryNames[k]
                            && (forall j :: 0 <= j < k ==> CategoryNames[j] in folders)
                            && forall c :: c in folders && c !in old(folders) ==> c in CategoryNames[..k]
      ensures report.NoFilesFound? || report.Organized? ==> forall c :: c in CategoryNames ==> c in folders
      ensures report.NoFilesFound? ==> old(files) == {}
      ensures report.Organized? ==> old(files) != {}
      // the only new folders are category folders; every folder holds what it
      // held before plus the names moved into it
      ensures forall c :: c in old(folders) ==> c in folders
      ensures forall c :: c in folders && c !in old(folders) ==> c in CategoryNames && c !in old(files) && canCreate(c)
      ensures Grown(old(folders), folders, log)
      // the files moved, each once, to its category under the least free name
      ensures DistinctItems(log)
      ensures Resolved(old(folders), log)
      ensures forall m :: m in log ==> WellFormedMove(m)
      ensures report.Organized? ==> MovedItems(log) == set x | x in old(files) && succeeds(x)
      ensures files == old(files) - MovedItems(log)
      // the summary
      ensures report.Organized? ==> |log| <= |old(files)| && SummaryOf(report.lines, report.total, log)
    {
      log := [];
      if !isDirectory {
        GrownByProvision(old(folders), folders);
        return NotADirectory, log;
      }
      var ok, failed := Provision(canCreate);
      if !ok {
        GrownByProvision(old(folders), folders);
        return ProvisionFailed(failed), log;
      }
      var snapshot := ListFiles();
      if snapshot == [] {
        assert forall x :: x !in files;
        GrownByProvision(old(folders), folders);
        return NoFilesFound, log;
      }
      ghost var provisioned := folders;
      var lines, total;
      lines, total, log := MoveAndSummarize(snapshot, succeeds);
      GrownByRun(old(folders), provisioned, folders, log);
      ResolvedByRun(old(folders), provisioned, log);
      report := Organized(lines, total);
    }
  }
}
