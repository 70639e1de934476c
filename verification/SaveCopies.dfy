/** Backup, restore and delete of whole saves, built from renames so that a failure half-way
    leaves the save as it was. Every file-system primitive below may fail at any call, and a
    failed copy or delete may leave any partial tree behind; only the renames that roll back
    are taken to succeed. `history` records the directories after every primitive, `faults`
    counts the host's failures.
 */
module SaveCopies {
  type Tree = map<string, seq<nat>>
  type Dirs = map<string, Tree>

  datatype Code = Done | ENOENT | EBUSY | EACCES | EIO | ENOSPC | EINVAL

  function Staging(destination: string): string { destination + ".tmp" }
  function Previous(destination: string): string { destination + ".old" }
  function Backup(root: string): string { root + ".backup" }
  function Retiring(root: string): string { root + ".delete" }
  function RetiredSave(root: string): string { root + ".delete/save" }
  function RetiredBackup(root: string): string { root + ".delete/backup" }

  /** Both directories say the same about every name outside `names`. */
  ghost predicate SameExcept(a: Dirs, b: Dirs, names: set<string>) {
    forall n :: n !in names ==> ((n in a <==> n in b) && (n in a ==> a[n] == b[n]))
  }

  ghost predicate SameAt(a: Dirs, b: Dirs, n: string) {
    (n in a <==> n in b) && (n in a ==> a[n] == b[n])
  }

  /** A destination that existed is never lost: its old tree or the complete new one is at
      the destination, or its old tree waits next to it. */
  ghost predicate Recoverable(d: Dirs, destination: string, before: Tree, after: Tree) {
    || (destination in d && (d[destination] == before || d[destination] == after))
    || (Previous(destination) in d && d[Previous(destination)] == before)
  }

  /** The save and its backup are each complete, in place or retired. */
  ghost predicate BothKept(d: Dirs, root: string, start: Dirs) {
    && (root in start ==> (root in d && d[root] == start[root]) ||
                          (RetiredSave(root) in d && d[RetiredSave(root)] == start[root]))
    && (Backup(root) in start ==> (Backup(root) in d && d[Backup(root)] == start[Backup(root)]) ||
                                  (RetiredBackup(root) in d && d[RetiredBackup(root)] == start[Backup(root)]))
  }

  /** Every state recorded from position `from` on is recoverable. */
  ghost predicate Logged(history: seq<Dirs>, from: nat, source: string, destination: string, start: Dirs) {
    source in start && destination in start ==>
      forall k :: from <= k < |history| ==> Recoverable(history[k], destination, start[destination], start[source])
  }

  lemma LogNone(history: seq<Dirs>, source: string, destination: string, start: Dirs)
    ensures Logged(history, |history|, source, destination, start)
  {
  }

  lemma LogNext(history: seq<Dirs>, from: nat, d: Dirs, source: string, destination: string, start: Dirs)
    requires Logged(history, from, source, destination, start)
    requires source in start && destination in start ==> Recoverable(d, destination, start[destination], start[source])
    ensures Logged(history + [d], from, source, destination, start)
  {
  }

  /** The answer to a copy during which the host fails at nothing. */
  function CopyCode(d: Dirs, source: string, destination: string, busy: bool): Code {
    if source !in d then ENOENT
    else if busy || Staging(destination) in d || Previous(destination) in d then EBUSY
    else Done
  }

  class SaveStore {
    var dirs: Dirs
    var history: seq<Dirs>
    var faults: nat

    constructor (d: Dirs)
      ensures dirs == d && history == [] && faults == 0
    {
      dirs, history, faults := d, [], 0;
    }

    method CopyTree(from: string, to: string) returns (ok: bool)
      requires from in dirs && to !in dirs
      modifies this
      ensures SameExcept(dirs, old(dirs), {to})
      ensures ok ==> to in dirs && dirs[to] == old(dirs)[from]
      ensures history == old(history) + [dirs]
      ensures faults == old(faults) + if ok then 0 else 1
    {
      ok := *;
      var partial: Tree := *;
      var left: bool := *;
      if ok {
        dirs := dirs[to := dirs[from]];
      } else if left {
        dirs := dirs[to := partial];
      }
      faults := faults + if ok then 0 else 1;
      history := history + [dirs];
    }

    method RenameTree(from: string, to: string) returns (ok: bool)
      requires from in dirs && to !in dirs && from != to
      modifies this
      ensures ok ==> dirs == (old(dirs) - {from})[to := old(dirs)[from]]
      ensures !ok ==> dirs == old(dirs)
      ensures history == old(history) + [dirs]
      ensures faults == old(faults) + if ok then 0 else 1
    {
      ok := *;
      if ok {
        dirs := (dirs - {from})[to := dirs[from]];
      } else {
        faults := faults + 1;
      }
      history := history + [dirs];
    }

    method RenameBack(from: string, to: string)
      requires from in dirs && to !in dirs && from != to
      modifies this
      ensures dirs == (old(dirs) - {from})[to := old(dirs)[from]]
      ensures history == old(history) + [dirs] && faults == old(faults)
    {
      dirs := (dirs - {from})[to := dirs[from]];
      history := history + [dirs];
    }

    method RemoveTree(name: string)
      modifies this
      ensures SameExcept(dirs, old(dirs), {name})
      ensures history == old(history) + [dirs] && old(faults) <= faults
      ensures faults == old(faults) ==> name !in dirs
    {
      var ok: bool := *;
      var partial: Tree := *;
      if ok {
        dirs := dirs - {name};
      } else {
        if name in dirs {
          dirs := dirs[name := partial];
        }
        faults := faults + 1;
      }
      history := history + [dirs];
    }

    /** The recursive delete of the retiring directory with everything moved into it. */
    method RemoveRetired(root: string)
      modifies this
      ensures SameExcept(dirs, old(dirs), {Retiring(root), RetiredSave(root), RetiredBackup(root)})
      ensures history == old(history) + [dirs] && old(faults) <= faults
      ensures faults == old(faults) ==> Retiring(root) !in dirs && RetiredSave(root) !in dirs && RetiredBackup(root) !in dirs
    {
      var save: Tree := *;
      var backup: Tree := *;
      var saveLeft: bool := *;
      var backupLeft: bool := *;
      var left: bool := *;
      dirs := if saveLeft then dirs[RetiredSave(root) := save] else dirs - {RetiredSave(root)};
      dirs := if backupLeft then dirs[RetiredBackup(root) := backup] else dirs - {RetiredBackup(root)};
      dirs := if left then dirs else dirs - {Retiring(root)};
      faults := faults + if saveLeft || backupLeft || left then 1 else 0;
      history := history + [dirs];
    }

    /** The checks before anything is touched; a fault is a walk, a status call or a quota
        read that fails, or a root or entry of the wrong kind. */
    method ValidateSave(root: string) returns (r: Code)
      modifies this`faults
      ensures old(faults) <= faults && (r == Done ==> root in dirs && faults == old(faults))
      ensures faults == old(faults) ==> r == if root in dirs then Done else ENOENT
    {
      var broken: bool := *;
      var odd: bool := *;
      if broken {
        faults := faults + 1;
        return EIO;
      }
      if root !in dirs {
        return ENOENT;
      }
      if odd {
        faults := faults + 1;
        return EACCES;
      }
      return Done;
    }

    /** Copies the save at `source` over the one at `destination`; `busy` stands for a file of
        either being open. */
    method CopySave(source: string, destination: string, busy: bool) returns (r: Code)
      requires source !in {destination, Staging(destination), Previous(destination)}
      modifies this
      ensures r == Done ==> source in old(dirs) && destination in dirs && dirs[destination] == old(dirs)[source]
      ensures r == Done ==> Staging(destination) !in dirs
      ensures r != Done ==> SameAt(dirs, old(dirs), destination) && SameAt(dirs, old(dirs), Previous(destination))
      ensures SameExcept(dirs, old(dirs), {destination, Staging(destination), Previous(destination)})
      ensures busy || source !in old(dirs) || Staging(destination) in old(dirs) || Previous(destination) in old(dirs) ==>
                r != Done && dirs == old(dirs)
      ensures |old(history)| <= |history|
      ensures Logged(history, |old(history)|, source, destination, old(dirs))
      ensures faults == old(faults) && !busy && source in old(dirs) &&
              Staging(destination) !in old(dirs) && Previous(destination) !in old(dirs) ==>
                r == Done && Previous(destination) !in dirs
      ensures faults == old(faults) && r != Done ==> r == if source in old(dirs) then EBUSY else ENOENT
    {
      hide SameExcept, Recoverable, Logged, Staging, Previous;
      Same(dirs);
      LogNone(history, source, destination, dirs);
      Names(destination);
      var staging, previous := Staging(destination), Previous(destination);
      r := ValidateSave(source);
      if r != Done {
        return;
      }
      var failed: bool := *;
      if failed {
        faults := faults + 1;
        return EIO;
      }
      if busy || staging in dirs || previous in dirs {
        return EBUSY;
      }
      var present := destination in dirs;
      if present {
        r := ValidateSave(destination);
        if r != Done {
          return;
        }
      }
      ghost var d0, from := dirs, |history|;
      var ok := CopyTree(source, staging);
      ghost var d1 := dirs;
      CopyStage(d0, d1, source, destination, ok);
      LogNext(old(history), from, d1, source, destination, d0);
      ghost var h1 := history;
      if ok && present {
        ok := RenameTree(destination, previous);
      }
      ghost var d2 := dirs;
      MoveStage(d0, d1, d2, source, destination, present, ok);
      LogNext(h1, from, d2, source, destination, d0);
      ghost var h2 := history;
      if ok {
        ok := RenameTree(staging, destination);
      }
      ghost var d3 := dirs;
      SwapStage(d0, d1, d2, d3, source, destination, present, ok);
      LogNext(h2, from, d3, source, destination, d0);
      ghost var h3 := history;
      if !ok {
        var full: bool := *;
        if present && destination !in dirs {
          RenameBack(previous, destination);
        }
        ghost var d4 := dirs;
        BackStage(d0, d3, d4, source, destination, present);
        LogNext(h3, from, d4, source, destination, d0);
        ghost var h4 := history;
        RemoveTree(staging);
        CleanStage(d0, d4, dirs, source, destination, present);
        LogNext(h4, from, dirs, source, destination, d0);
        return if full then ENOSPC else EIO;
      }
      if present {
        RemoveTree(previous);
      }
      DoneStage(d0, d3, dirs, source, destination, present);
      LogNext(h3, from, dirs, source, destination, d0);
      r := Done;
    }

    method BackupSave(root: string, busy: bool) returns (r: Code)
      modifies this
      ensures r == Done ==> root in old(dirs) && Backup(root) in dirs && dirs[Backup(root)] == old(dirs)[root]
      ensures r != Done ==> SameAt(dirs, old(dirs), Backup(root))
      ensures SameAt(dirs, old(dirs), root)
      ensures faults == old(faults) ==> r == CopyCode(old(dirs), root, Backup(root), busy)
      ensures |old(history)| <= |history| && Logged(history, |old(history)|, root, Backup(root), old(dirs))
    {
      hide Logged;
      BackupNames(root);
      r := CopySave(root, Backup(root), busy);
    }

    /** What BackupSave stored comes back complete, or the save stays as it was. */
    method RestoreBackup(root: string, busy: bool) returns (r: Code)
      modifies this
      ensures r == Done ==> Backup(root) in old(dirs) && root in dirs && dirs[root] == old(dirs)[Backup(root)]
      ensures r != Done ==> SameAt(dirs, old(dirs), root)
      ensures SameAt(dirs, old(dirs), Backup(root))
      ensures faults == old(faults) ==> r == CopyCode(old(dirs), Backup(root), root, busy)
      ensures |old(history)| <= |history| && Logged(history, |old(history)|, Backup(root), root, old(dirs))
    {
      hide Logged;
      BackupNames(root);
      r := CopySave(Backup(root), root, busy);
    }

    /** Deletes a save together with its backup: both go, or both stay. `busy` stands for a
        file of either being open. */
    method RemoveSave(root: string, busy: bool) returns (r: Code)
      modifies this
      ensures r == Done ==> root !in dirs && Backup(root) !in dirs
      ensures r != Done ==> SameAt(dirs, old(dirs), root) && SameAt(dirs, old(dirs), Backup(root))
      ensures SameExcept(dirs, old(dirs), RemoveNameSet(root))
      ensures r != Done && |history| == |old(history)| ==> dirs == old(dirs)
      ensures faults == old(faults) && Removable(old(dirs), root, busy) ==> r == Done && Retiring(root) !in dirs
      ensures faults == old(faults) && r != Done ==> r == if root in old(dirs) then EBUSY else ENOENT
      ensures if r == Done
              then history != [] && Kept(history[..|history| - 1], |old(history)|, root, old(dirs))
              else Kept(history, |old(history)|, root, old(dirs))
    {
      hide SameExcept, BothKept, Kept, Backup, Retiring, RetiredSave, RetiredBackup, Staging, Previous,
        Whole, HalfRetired, Retired;
      RemoveNames(root);
      Same(dirs);
      KeptNone(history, root, dirs);
      var backup, retiring := Backup(root), Retiring(root);
      var broken: bool := *;
      var odd: bool := *;
      if root !in dirs {
        return ENOENT;
      }
      if odd {
        faults := faults + 1;
        return EINVAL;
      }
      // What lies inside the retiring directory is there only if that directory is.
      if busy || retiring in dirs || Staging(root) in dirs || Previous(root) in dirs ||
         Staging(backup) in dirs || Previous(backup) in dirs || RetiredSave(root) in dirs || RetiredBackup(root) in dirs {
        return EBUSY;
      }
      if broken {
        faults := faults + 1;
        return EIO;
      }
      var hasBackup := backup in dirs;
      var oddBackup: bool := *;
      if hasBackup && oddBackup {
        faults := faults + 1;
        return EACCES;
      }
      var created: bool := *;
      if !created {
        faults := faults + 1;
        return EIO;
      }
      ghost var d0, from, h0 := dirs, |history|, history;
      dirs := dirs[retiring := map[]];
      history := history + [dirs];
      RetireStart(d0, root);
      KeptNext(h0, from, dirs, root, d0);
      ghost var d1, h1 := dirs, history;
      var ok := RenameTree(root, RetiredSave(root));
      if !ok {
        KeptNext(h1, from, dirs, root, d0);
        ghost var h2 := history;
        RemoveTree(retiring);
        RetireCleanup(d0, d1, dirs, root);
        KeptNext(h2, from, dirs, root, d0);
        return EIO;
      }
      RetireSave(d0, d1, dirs, root);
      KeptNext(h1, from, dirs, root, d0);
      ghost var d2, h2 := dirs, history;
      if hasBackup {
        ok := RenameTree(backup, RetiredBackup(root));
        if !ok {
          KeptNext(h2, from, dirs, root, d0);
          ghost var h3 := history;
          RenameBack(RetiredSave(root), root);
          RetireUndo(d0, d2, dirs, root);
          KeptNext(h3, from, dirs, root, d0);
          ghost var d4, h4 := dirs, history;
          RemoveTree(retiring);
          RetireCleanup(d0, d4, dirs, root);
          KeptNext(h4, from, dirs, root, d0);
          return EIO;
        }
      }
      RetireBackup(d0, d2, dirs, root, hasBackup);
      KeptNext(h2, from, dirs, root, d0);
      ghost var d5, h5 := dirs, history;
      RemoveRetired(root);
      RetireDelete(d0, d5, dirs, root);
      assert history[..|history| - 1] == h5;
      r := Done;
    }
  }

  /** Nothing of an earlier operation on the save or its backup is in the way. */
  ghost predicate Removable(d: Dirs, root: string, busy: bool) {
    && !busy && root in d && Staging(root) !in d && Previous(root) !in d
    && Staging(Backup(root)) !in d && Previous(Backup(root)) !in d
    && Retiring(root) !in d && RetiredSave(root) !in d && RetiredBackup(root) !in d
  }

  // ---- the stages of RemoveSave -------------------------------------------------------------

  ghost function RemoveNameSet(root: string): set<string> {
    {root, Backup(root), Retiring(root), RetiredSave(root), RetiredBackup(root)}
  }

  /** The save and its backup are where they were. */
  ghost predicate Whole(d: Dirs, d0: Dirs, root: string) {
    && SameExcept(d, d0, RemoveNameSet(root)) && SameAt(d, d0, root) && SameAt(d, d0, Backup(root))
    && RetiredSave(root) !in d && RetiredBackup(root) !in d
  }

  ghost predicate HalfRetired(d: Dirs, d0: Dirs, root: string) {
    && SameExcept(d, d0, RemoveNameSet(root)) && root in d0 && root !in d && SameAt(d, d0, Backup(root))
    && RetiredSave(root) in d && d[RetiredSave(root)] == d0[root] && RetiredBackup(root) !in d
  }

  ghost predicate Retired(d: Dirs, d0: Dirs, root: string) {
    SameExcept(d, d0, RemoveNameSet(root)) && root !in d && Backup(root) !in d
  }

  lemma RetireStart(d0: Dirs, root: string)
    requires RetiredSave(root) !in d0 && RetiredBackup(root) !in d0
    ensures Whole(d0[Retiring(root) := map[]], d0, root) && BothKept(d0[Retiring(root) := map[]], root, d0)
    ensures root in d0 ==> root in d0[Retiring(root) := map[]]
  {
    RemoveNames(root);
  }

  lemma RetireSave(d0: Dirs, d1: Dirs, d2: Dirs, root: string)
    requires Whole(d1, d0, root) && root in d1 && d2 == (d1 - {root})[RetiredSave(root) := d1[root]]
    ensures HalfRetired(d2, d0, root) && BothKept(d2, root, d0)
    ensures Backup(root) in d2 <==> Backup(root) in d0
    ensures RetiredBackup(root) !in d2 && RetiredSave(root) in d2 && root !in d2
  {
    RemoveNames(root);
  }

  lemma RetireUndo(d0: Dirs, d2: Dirs, d3: Dirs, root: string)
    requires HalfRetired(d2, d0, root) && RetiredSave(root) in d2
    requires d3 == (d2 - {RetiredSave(root)})[root := d2[RetiredSave(root)]]
    ensures Whole(d3, d0, root) && BothKept(d3, root, d0)
  {
    RemoveNames(root);
  }

  lemma RetireCleanup(d0: Dirs, d1: Dirs, d2: Dirs, root: string)
    requires Whole(d1, d0, root) && SameExcept(d2, d1, {Retiring(root)})
    ensures BothKept(d2, root, d0) && SameAt(d2, d0, root) && SameAt(d2, d0, Backup(root))
    ensures SameExcept(d2, d0, RemoveNameSet(root))
  {
    RemoveNames(root);
  }

  lemma RetireBackup(d0: Dirs, d2: Dirs, d3: Dirs, root: string, hasBackup: bool)
    requires HalfRetired(d2, d0, root) && (hasBackup <==> Backup(root) in d2)
    requires if hasBackup then d3 == (d2 - {Backup(root)})[RetiredBackup(root) := d2[Backup(root)]] else d3 == d2
    ensures Retired(d3, d0, root) && BothKept(d3, root, d0)
  {
    RemoveNames(root);
  }

  lemma RetireDelete(d0: Dirs, d: Dirs, e: Dirs, root: string)
    requires Retired(d, d0, root) && SameExcept(e, d, {Retiring(root), RetiredSave(root), RetiredBackup(root)})
    ensures root !in e && Backup(root) !in e && SameExcept(e, d0, RemoveNameSet(root))
  {
    RemoveNames(root);
  }

  /** Every state recorded from position `from` on has both trees complete. */
  ghost predicate Kept(history: seq<Dirs>, from: nat, root: string, start: Dirs) {
    forall k :: from <= k < |history| ==> BothKept(history[k], root, start)
  }

  lemma KeptNone(history: seq<Dirs>, root: string, start: Dirs)
    ensures Kept(history, |history|, root, start)
  {
  }

  lemma KeptNext(history: seq<Dirs>, from: nat, d: Dirs, root: string, start: Dirs)
    requires Kept(history, from, root, start) && BothKept(d, root, start)
    ensures Kept(history + [d], from, root, start)
  {
  }

  lemma Names(destination: string)
    ensures Staging(destination) != destination && Previous(destination) != destination
    ensures Staging(destination) != Previous(destination)
  {
    assert |Staging(destination)| == |destination| + 4 && |Previous(destination)| == |destination| + 4;
    assert Staging(destination)[|destination| + 1] == 't';
  }

  lemma BackupNames(root: string)
    ensures root !in {Backup(root), Staging(Backup(root)), Previous(Backup(root))}
    ensures Backup(root) !in {root, Staging(root), Previous(root)}
  {
    assert |Backup(root)| == |root| + 7 && |Staging(root)| == |root| + 4 && |Previous(root)| == |root| + 4;
    assert |Staging(Backup(root))| == |root| + 11 && |Previous(Backup(root))| == |root| + 11;
  }

  lemma RemoveNames(root: string)
    ensures root !in {Backup(root), Retiring(root), RetiredSave(root), RetiredBackup(root)}
    ensures Backup(root) !in {Retiring(root), RetiredSave(root), RetiredBackup(root)}
    ensures Retiring(root) !in {RetiredSave(root), RetiredBackup(root)} && RetiredSave(root) != RetiredBackup(root)
  {
    assert |Backup(root)| == |root| + 7 && |Retiring(root)| == |root| + 7;
    assert |RetiredSave(root)| == |root| + 12 && |RetiredBackup(root)| == |root| + 14;
    assert Backup(root)[|root| + 1] == 'b' && Retiring(root)[|root| + 1] == 'd';
  }

  // ---- the stages of CopySave, as facts about successive directories -------------------------

  lemma Same(d: Dirs)
    ensures forall names :: SameExcept(d, d, names)
  {
  }

  lemma CopyStage(d0: Dirs, d1: Dirs, source: string, destination: string, ok: bool)
    requires source in d0 && source !in {destination, Staging(destination), Previous(destination)}
    requires SameExcept(d1, d0, {Staging(destination)}) && Previous(destination) !in d0
    requires ok ==> Staging(destination) in d1 && d1[Staging(destination)] == d0[source]
    ensures SameAt(d1, d0, destination) && SameAt(d1, d0, source) && Previous(destination) !in d1
    ensures destination in d0 ==> Recoverable(d1, destination, d0[destination], d0[source])
  {
    Names(destination);
  }

  lemma MoveStage(d0: Dirs, d1: Dirs, d2: Dirs, source: string, destination: string, present: bool, ok: bool)
    requires source in d0 && (present <==> destination in d0) && SameAt(d1, d0, destination)
    requires SameExcept(d1, d0, {Staging(destination)}) && Previous(destination) !in d1
    requires d2 == d1 || (present && ok && destination in d1 &&
                          d2 == (d1 - {destination})[Previous(destination) := d1[destination]])
    requires ok && present ==> d2 != d1 || destination !in d1
    ensures present ==> Recoverable(d2, destination, d0[destination], d0[source])
    ensures ok && present ==> destination !in d2 && Previous(destination) in d2 && d2[Previous(destination)] == d0[destination]
    ensures ok && !present ==> d2 == d1 && destination !in d2
    ensures !ok ==> d2 == d1
    ensures Staging(destination) in d1 ==> Staging(destination) in d2 && d2[Staging(destination)] == d1[Staging(destination)]
    ensures SameExcept(d2, d0, {destination, Staging(destination), Previous(destination)})
  {
    Names(destination);
    if present {
      assert destination in d1 && d1[destination] == d0[destination];
    }
  }

  lemma SwapStage(d0: Dirs, d1: Dirs, d2: Dirs, d3: Dirs, source: string, destination: string, present: bool, ok: bool)
    requires source in d0 && (present <==> destination in d0)
    requires SameExcept(d2, d0, {destination, Staging(destination), Previous(destination)})
    requires present ==> Recoverable(d2, destination, d0[destination], d0[source])
    requires d3 == d2 || (ok && Staging(destination) in d2 && d2[Staging(destination)] == d0[source] &&
                          d3 == (d2 - {Staging(destination)})[destination := d2[Staging(destination)]])
    requires ok ==> d3 != d2 || Staging(destination) !in d2
    ensures SameExcept(d3, d0, {destination, Staging(destination), Previous(destination)})
    ensures present ==> Recoverable(d3, destination, d0[destination], d0[source])
    ensures ok && d3 != d2 ==> destination in d3 && d3[destination] == d0[source] && Staging(destination) !in d3
  {
    Names(destination);
  }

  lemma BackStage(d0: Dirs, d3: Dirs, d4: Dirs, source: string, destination: string, present: bool)
    requires source in d0 && (present <==> destination in d0)
    requires SameExcept(d3, d0, {destination, Staging(destination), Previous(destination)})
    requires present ==> Recoverable(d3, destination, d0[destination], d0[source])
    requires present && destination !in d3 ==> Previous(destination) in d3 && d3[Previous(destination)] == d0[destination]
    requires d4 == if present && destination !in d3
                   then (d3 - {Previous(destination)})[destination := d3[Previous(destination)]] else d3
    ensures SameExcept(d4, d0, {destination, Staging(destination), Previous(destination)})
    ensures present ==> Recoverable(d4, destination, d0[destination], d0[source])
  {
    Names(destination);
  }

  lemma CleanStage(d0: Dirs, d4: Dirs, d5: Dirs, source: string, destination: string, present: bool)
    requires source in d0 && (present <==> destination in d0) && SameExcept(d5, d4, {Staging(destination)})
    requires SameExcept(d4, d0, {destination, Staging(destination), Previous(destination)})
    requires present ==> Recoverable(d4, destination, d0[destination], d0[source])
    ensures SameAt(d5, d4, destination) && SameAt(d5, d4, Previous(destination))
    ensures SameExcept(d5, d0, {destination, Staging(destination), Previous(destination)})
    ensures present ==> Recoverable(d5, destination, d0[destination], d0[source])
  {
    Names(destination);
  }

  lemma DoneStage(d0: Dirs, d3: Dirs, d5: Dirs, source: string, destination: string, present: bool)
    requires source in d0 && (present <==> destination in d0)
    requires SameExcept(d3, d0, {destination, Staging(destination), Previous(destination)})
    requires destination in d3 && d3[destination] == d0[source] && Staging(destination) !in d3
    requires d5 == d3 || SameExcept(d5, d3, {Previous(destination)})
    ensures destination in d5 && d5[destination] == d0[source] && Staging(destination) !in d5
    ensures SameExcept(d5, d0, {destination, Staging(destination), Previous(destination)})
    ensures present ==> Recoverable(d5, destination, d0[destination], d0[source])
  {
    Names(destination);
  }
}
