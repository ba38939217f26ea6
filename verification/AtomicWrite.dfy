/** Replacing a configuration file: three writers over a disk whose every operation can fail or be cut by a crash. */
module AtomicWrite {
  import opened Wrappers

  type Name = string
  type Files = map<Name, string>

  /** How a copy or a write ends; `partial` is what the destination holds on the way. */
  datatype Transfer = Done(partial: string) | Refused | Broken(partial: string)

  datatype RenameIo = Moved | Transient | Fatal

  datatype WriteError = RotateFailed | BackupFailed | PermissionsFailed | DirectoryFailed | TmpFailed | SyncFailed
                      | RenameFailed | VerifyFailed | ReadFailed | MergeFailed

  // ---------------------------------------------------------------- names beside the target

  function Bak(target: Name): Name {
    target + ".bak"
  }

  function BakOld(target: Name): Name {
    target + ".bak.old"
  }

  function DotTmp(target: Name): Name {
    "." + target + ".amore-tmp"
  }

  function Tmp(target: Name): Name {
    target + ".tmp"
  }

  lemma NamesDiffer(target: Name)
    ensures target != Bak(target) && target != BakOld(target) && target != DotTmp(target) && target != Tmp(target)
    ensures Bak(target) != BakOld(target) && Bak(target) != DotTmp(target) && BakOld(target) != DotTmp(target)
    ensures Bak(target) != Tmp(target)
  {
    var n := |target|;
    assert Bak(target)[n + 1] == 'b' && Tmp(target)[n + 1] == 't';
  }

  // ---------------------------------------------------------------- the disk

  /** The files, and a record of every state they passed through. */
  class Disk {
    var files: Files
    ghost var history: seq<Files>

    constructor (files: Files)
      ensures this.files == files && history == [files]
    {
      this.files := files;
      history := [files];
    }

    method Note()
      modifies this`history
      ensures history == old(history) + [files]
    {
      history := history + [files];
    }

    // Atomic: either nothing happens or the source replaces the destination.
    method Rename(src: Name, dst: Name, io: bool) returns (ok: bool)
      modifies this
      ensures ok <==> io && src in old(files)
      ensures files == if ok then (old(files) - {src})[dst := old(files)[src]] else old(files)
      ensures history == old(history) + [files]
    {
      ok := io && src in files;
      if ok {
        files := (files - {src})[dst := files[src]];
      }
      Note();
    }

    // The destination passes through a partial content and may be left with it.
    method Transmit(dst: Name, text: string, io: Transfer) returns (ok: bool)
      modifies this
      ensures ok <==> io.Done?
      ensures io.Refused? ==> files == old(files) && history == old(history) + [files]
      ensures !io.Refused? ==>
                && history == old(history) + [old(files)[dst := io.partial], files]
                && files == old(files)[dst := if ok then text else io.partial]
    {
      ok := io.Done?;
      if !io.Refused? {
        files := files[dst := io.partial];
        Note();
        if ok {
          files := files[dst := text];
        }
      }
      Note();
    }

    method Copy(src: Name, dst: Name, io: Transfer) returns (ok: bool)
      modifies this
      ensures ok <==> io.Done? && src in old(files)
      ensures src !in old(files) || io.Refused? ==> files == old(files) && history == old(history) + [files]
      ensures src in old(files) && !io.Refused? ==>
                && history == old(history) + [old(files)[dst := io.partial], files]
                && files == old(files)[dst := if ok then old(files)[src] else io.partial]
    {
      if src !in files {
        Note();
        return false;
      }
      ok := Transmit(dst, files[src], io);
    }

    method Remove(f: Name, io: bool)
      modifies this
      ensures files == if io then old(files) - {f} else old(files)
      ensures history == old(history) + [files]
    {
      if io {
        files := files - {f};
      }
      Note();
    }
  }

  // ---------------------------------------------------------------- retrying a rename

  // The first answer that is not transient decides; three transient answers are a failure.
  function RetryVerdict(ios: seq<RenameIo>): bool {
    |ios| > 0 && (ios[0].Moved? || (ios[0].Transient? && RetryVerdict(ios[1..])))
  }

  /** At most three attempts, and the code after the loop is never reached. */
  method RetryRename(d: Disk, src: Name, dst: Name, ios: seq<RenameIo>) returns (ok: bool, attempts: nat)
    requires |ios| == 3
    modifies d
    ensures 1 <= attempts <= 3
    ensures attempts < 3 ==> !ios[attempts - 1].Transient? || src !in old(d.files)
    ensures forall k | 0 <= k < attempts - 1 :: ios[k].Transient? && src in old(d.files)
    ensures ok <==> RetryVerdict(ios) && src in old(d.files)
    ensures d.files == if ok then (old(d.files) - {src})[dst := old(d.files)[src]] else old(d.files)
    ensures old(d.history) <= d.history
    ensures forall h | |old(d.history)| <= h < |d.history| :: d.history[h] == old(d.files) || d.history[h] == d.files
  {
    ok, attempts := false, 0;
    ghost var rest := ios;
    while attempts < 3
      invariant attempts <= 2 && rest == ios[attempts..]
      invariant d.files == old(d.files) && old(d.history) <= d.history
      invariant RetryVerdict(ios) == RetryVerdict(rest)
      invariant forall k | 0 <= k < attempts :: ios[k].Transient? && src in d.files
      invariant forall h | |old(d.history)| <= h < |d.history| :: d.history[h] == old(d.files)
    {
      var io := ios[attempts];
      ok := d.Rename(src, dst, io.Moved?);
      attempts := attempts + 1;
      if ok {
        return;
      }
      // A missing source is not a transient error.
      var transient := io.Transient? && src in d.files;
      if !(transient && attempts - 1 < 2) {
        assert rest[1..] == ios[attempts..];
        return;
      }
      rest := rest[1..];
    }
    assert false;
  }

  // ---------------------------------------------------------------- what every crash point keeps

  /** The content before the edit is intact in the target or in the backup. */
  predicate Recoverable(files: Files, target: Name, before: string) {
    || (target in files && files[target] == before)
    || (Bak(target) in files && files[Bak(target)] == before)
  }

  ghost predicate AllRecoverable(history: seq<Files>, from: nat, target: Name, before: string) {
    forall h | from <= h < |history| :: Recoverable(history[h], target, before)
  }

  // The backup made by the edit before is still there under one of its two names.
  predicate KeepsOldBackup(files: Files, target: Name, text: string) {
    || (Bak(target) in files && files[Bak(target)] == text)
    || (BakOld(target) in files && files[BakOld(target)] == text)
  }

  predicate Untouched(a: Files, b: Files, f: Name) {
    (f in a <==> f in b) && (f in a ==> a[f] == b[f])
  }

  ghost predicate OthersUntouched(a: Files, b: Files, own: set<Name>) {
    forall f | f !in own :: Untouched(a, b, f)
  }

  ghost function OwnNames(target: Name): set<Name> {
    {target, Bak(target), BakOld(target), DotTmp(target), Tmp(target)}
  }

  /** From one disk state to a later one: foreign files stay, and the later state and every one in between is
      recoverable. */
  ghost predicate Careful(a: Files, from: seq<Files>, b: Files, to: seq<Files>, target: Name) {
    && OthersUntouched(b, a, OwnNames(target))
    && from <= to
    && (target in a ==> Recoverable(b, target, a[target]) && AllRecoverable(to, |from|, target, a[target]))
  }

  lemma CarefulThen(a: Files, h: seq<Files>, b: Files, i: seq<Files>, c: Files, j: seq<Files>, target: Name)
    requires Careful(a, h, b, i, target) && Careful(b, i, c, j, target) && Untouched(b, a, target)
    ensures Careful(a, h, c, j, target)
  {}

  // ---------------------------------------------------------------- steps that two writers share

  // An existing backup moves to its older name.
  method RotateBackup(d: Disk, target: Name, rotate: bool) returns (ok: bool)
    modifies d
    ensures ok <==> (Bak(target) in old(d.files) ==> rotate)
    ensures ok ==> Bak(target) !in d.files
    ensures Bak(target) in old(d.files) ==> KeepsOldBackup(d.files, target, old(d.files)[Bak(target)])
    ensures ok && Bak(target) in old(d.files) ==>
              BakOld(target) in d.files && d.files[BakOld(target)] == old(d.files)[Bak(target)]
    ensures Untouched(d.files, old(d.files), target)
    ensures Careful(old(d.files), old(d.history), d.files, d.history, target)
  {
    hide Bak, BakOld, DotTmp, Tmp;
    NamesDiffer(target);
    ok := true;
    if Bak(target) in d.files {
      ok := d.Rename(Bak(target), BakOld(target), rotate);
    }
  }

  // The live content is copied to the backup name; a broken copy leaves the older backup alone.
  method CopyToBackup(d: Disk, target: Name, io: Transfer) returns (ok: bool)
    modifies d
    ensures ok <==> target in old(d.files) && io.Done?
    ensures ok ==> Bak(target) in d.files && d.files[Bak(target)] == old(d.files)[target]
    ensures Untouched(d.files, old(d.files), target) && Untouched(d.files, old(d.files), BakOld(target))
    ensures Careful(old(d.files), old(d.history), d.files, d.history, target)
  {
    hide Bak, BakOld, DotTmp, Tmp;
    NamesDiffer(target);
    ok := d.Copy(target, Bak(target), io);
  }

  // The older backup takes its name back, if there is one.
  method RestoreRotated(d: Disk, target: Name, io: bool)
    modifies d
    ensures BakOld(target) in old(d.files) ==> KeepsOldBackup(d.files, target, old(d.files)[BakOld(target)])
    ensures Untouched(d.files, old(d.files), target)
    ensures Careful(old(d.files), old(d.history), d.files, d.history, target)
  {
    hide Bak, BakOld, DotTmp, Tmp;
    NamesDiffer(target);
    if BakOld(target) in d.files {
      var _ := d.Rename(BakOld(target), Bak(target), io);
    }
  }

  method DropRotated(d: Disk, target: Name, io: bool)
    modifies d
    ensures Untouched(d.files, old(d.files), target) && Untouched(d.files, old(d.files), Bak(target))
    ensures Careful(old(d.files), old(d.history), d.files, d.history, target)
  {
    hide Bak, BakOld, DotTmp, Tmp;
    NamesDiffer(target);
    if BakOld(target) in d.files {
      d.Remove(BakOld(target), io);
    }
  }

  method WriteTmp(d: Disk, target: Name, content: string, io: Transfer) returns (ok: bool)
    modifies d
    ensures ok <==> io.Done?
    ensures ok ==> DotTmp(target) in d.files && d.files[DotTmp(target)] == content
    ensures Untouched(d.files, old(d.files), target) && Untouched(d.files, old(d.files), Bak(target))
    ensures Careful(old(d.files), old(d.history), d.files, d.history, target)
  {
    hide Bak, BakOld, DotTmp, Tmp;
    NamesDiffer(target);
    ok := d.Transmit(DotTmp(target), content, io);
  }

  method DropTmp(d: Disk, target: Name, io: bool)
    modifies d
    ensures Untouched(d.files, old(d.files), target) && Untouched(d.files, old(d.files), Bak(target))
    ensures Careful(old(d.files), old(d.history), d.files, d.history, target)
  {
    hide Bak, BakOld, DotTmp, Tmp;
    NamesDiffer(target);
    d.Remove(DotTmp(target), io);
  }

  /** Move the temporary file over the target; when that fails, drop it and copy the backup back. */
  method SwapIn(d: Disk, target: Name, renames: seq<RenameIo>, dropTmp: bool, restore: Transfer) returns (ok: bool)
    requires |renames| == 3 && DotTmp(target) in d.files
    requires target in d.files ==> Bak(target) in d.files && d.files[Bak(target)] == d.files[target]
    requires target !in d.files ==> Bak(target) !in d.files
    modifies d
    ensures ok <==> RetryVerdict(renames)
    ensures ok ==> target in d.files && d.files[target] == old(d.files)[DotTmp(target)] && DotTmp(target) !in d.files
    ensures !ok && !restore.Broken? ==> Untouched(d.files, old(d.files), target)
    ensures !ok && restore.Broken? && target in old(d.files) ==>
              target in d.files && d.files[target] == restore.partial
    ensures Untouched(d.files, old(d.files), Bak(target))
    ensures Careful(old(d.files), old(d.history), d.files, d.history, target)
  {
    hide Bak, BakOld, DotTmp, Tmp;
    NamesDiffer(target);
    var moved, _ := RetryRename(d, DotTmp(target), target, renames);
    ok := moved;
    if !ok {
      d.Remove(DotTmp(target), dropTmp);
      var _ := d.Copy(Bak(target), target, restore);
    }
  }

  // ---------------------------------------------------------------- the desktop writer

  datatype WirePlan = WirePlan(
    rotate: bool, backup: Transfer, unrotate: bool, permissions: bool, dropOld: bool,
    write: Transfer, sync: bool, dropTmp: bool, renames: seq<RenameIo>, restore: Transfer, parses: bool)

  // Before the live file is touched: rotate the old backup, copy the target, restrict its permissions.
  method BackUp(d: Disk, target: Name, plan: WirePlan) returns (r: Result<(), WriteError>)
    modifies d
    ensures r.Ok? <==>
              && (Bak(target) in old(d.files) ==> plan.rotate)
              && target in old(d.files) && plan.backup.Done? && plan.permissions
    ensures r.Ok? ==> Bak(target) in d.files && d.files[Bak(target)] == old(d.files)[target]
    ensures r.Err? && Bak(target) in old(d.files) ==> KeepsOldBackup(d.files, target, old(d.files)[Bak(target)])
    ensures r.Err? ==> r.error in {RotateFailed, BackupFailed, PermissionsFailed}
    ensures Untouched(d.files, old(d.files), target)
    ensures Careful(old(d.files), old(d.history), d.files, d.history, target)
  {
    hide Careful, Bak, BakOld;
    ghost var f0, h0 := d.files, d.history;
    var rotated := RotateBackup(d, target, plan.rotate);
    if !rotated {
      return Err(RotateFailed);
    }
    ghost var f1, h1 := d.files, d.history;
    var copied := CopyToBackup(d, target, plan.backup);
    CarefulThen(f0, h0, f1, h1, d.files, d.history, target);
    ghost var f2, h2 := d.files, d.history;
    if !copied || !plan.permissions {
      RestoreRotated(d, target, plan.unrotate);
      CarefulThen(f0, h0, f2, h2, d.files, d.history, target);
      return Err(if copied then PermissionsFailed else BackupFailed);
    }
    DropRotated(d, target, plan.dropOld);
    CarefulThen(f0, h0, f2, h2, d.files, d.history, target);
    r := Ok(());
  }

  /** Backup, temporary file, rename, restore on failure, parse check. */
  method WriteAtomic(d: Disk, target: Name, content: string, plan: WirePlan) returns (r: Result<(), WriteError>)
    requires |plan.renames| == 3
    modifies d
    ensures r.Ok? <==>
              && (Bak(target) in old(d.files) ==> plan.rotate)
              && target in old(d.files) && plan.backup.Done? && plan.permissions
              && plan.write.Done? && plan.sync && RetryVerdict(plan.renames) && plan.parses
    ensures r.Ok? ==>
              && target in d.files && d.files[target] == content
              && Bak(target) in d.files && d.files[Bak(target)] == old(d.files)[target]
              && DotTmp(target) !in d.files
    ensures r.Err? && r.error !in {RenameFailed, VerifyFailed} ==> Untouched(d.files, old(d.files), target)
    ensures r == Err(RenameFailed) && !plan.restore.Broken? ==> Untouched(d.files, old(d.files), target)
    ensures r == Err(RenameFailed) && plan.restore.Broken? ==>
              && target in d.files && d.files[target] == plan.restore.partial && target in old(d.files)
              && Bak(target) in d.files && d.files[Bak(target)] == old(d.files)[target]
    ensures r == Err(VerifyFailed) ==>
              && target in d.files && d.files[target] == content && target in old(d.files)
              && Bak(target) in d.files && d.files[Bak(target)] == old(d.files)[target]
    ensures Careful(old(d.files), old(d.history), d.files, d.history, target)
    ensures Allowed(EditRun(Desktop, old(d.files), d.history[|old(d.history)|..], d.files, content,
                            if r.Ok? then Replaced else NotDone), target)
  {
    hide Allowed, Careful, Bak, BakOld, DotTmp, RetryVerdict;
    ghost var f0, h0 := d.files, d.history;
    var backedUp := BackUp(d, target, plan);
    if backedUp.Err? {
      WriterRun(Desktop, f0, h0, d.files, d.history, target, content, false);
      return backedUp;
    }
    ghost var f1, h1 := d.files, d.history;
    var written := WriteTmp(d, target, content, plan.write);
    CarefulThen(f0, h0, f1, h1, d.files, d.history, target);
    if !written {
      WriterRun(Desktop, f0, h0, d.files, d.history, target, content, false);
      return Err(TmpFailed);
    }
    ghost var f2, h2 := d.files, d.history;
    if !plan.sync {
      DropTmp(d, target, plan.dropTmp);
      CarefulThen(f0, h0, f2, h2, d.files, d.history, target);
      WriterRun(Desktop, f0, h0, d.files, d.history, target, content, false);
      return Err(SyncFailed);
    }
    var moved := SwapIn(d, target, plan.renames, plan.dropTmp, plan.restore);
    CarefulThen(f0, h0, f2, h2, d.files, d.history, target);
    if !moved {
      WriterRun(Desktop, f0, h0, d.files, d.history, target, content, false);
      return Err(RenameFailed);
    }
    WriterRun(Desktop, f0, h0, d.files, d.history, target, content, plan.parses);
    r := if plan.parses then Ok(()) else Err(VerifyFailed);
  }

  // ---------------------------------------------------------------- the command-line writer

  datatype RegisterPlan = RegisterPlan(
    rotate: bool, backup: Transfer, unrotate: bool, permissions: bool, dropOld: bool, makeDirectory: bool,
    write: Transfer, sync: bool, dropTmp: bool, renames: seq<RenameIo>, restore: Transfer, parses: bool)

  // A missing target needs no backup; a failed copy leaves the old backup under its older name.
  method BackUpIfPresent(d: Disk, target: Name, plan: RegisterPlan) returns (r: Result<(), WriteError>)
    modifies d
    ensures r.Ok? <==>
              && (Bak(target) in old(d.files) ==> plan.rotate)
              && (target in old(d.files) ==> plan.backup.Done? && plan.permissions)
    ensures r.Ok? ==>
              if target in old(d.files)
              then Bak(target) in d.files && d.files[Bak(target)] == old(d.files)[target]
              else Bak(target) !in d.files
    ensures r.Err? && Bak(target) in old(d.files) ==> KeepsOldBackup(d.files, target, old(d.files)[Bak(target)])
    ensures r.Err? ==> r.error in {RotateFailed, BackupFailed, PermissionsFailed}
    ensures Untouched(d.files, old(d.files), target)
    ensures Careful(old(d.files), old(d.history), d.files, d.history, target)
  {
    hide Careful, Bak, BakOld;
    ghost var f0, h0 := d.files, d.history;
    var rotated := RotateBackup(d, target, plan.rotate);
    if !rotated {
      return Err(RotateFailed);
    }
    ghost var f1, h1 := d.files, d.history;
    if target in d.files {
      var copied := CopyToBackup(d, target, plan.backup);
      CarefulThen(f0, h0, f1, h1, d.files, d.history, target);
      f1, h1 := d.files, d.history;
      if !copied {
        return Err(BackupFailed);
      }
      if !plan.permissions {
        RestoreRotated(d, target, plan.unrotate);
        CarefulThen(f0, h0, f1, h1, d.files, d.history, target);
        return Err(PermissionsFailed);
      }
    }
    DropRotated(d, target, plan.dropOld);
    CarefulThen(f0, h0, f1, h1, d.files, d.history, target);
    r := Ok(());
  }

  /** As the desktop writer, but it also creates a target that does not exist. */
  method WriteAtomicJson(d: Disk, target: Name, content: string, plan: RegisterPlan) returns (r: Result<(), WriteError>)
    requires |plan.renames| == 3
    modifies d
    ensures r.Ok? <==>
              && (Bak(target) in old(d.files) ==> plan.rotate)
              && (target in old(d.files) ==> plan.backup.Done? && plan.permissions)
              && plan.makeDirectory && plan.write.Done? && plan.sync && RetryVerdict(plan.renames) && plan.parses
    ensures r.Ok? ==>
              && target in d.files && d.files[target] == content && DotTmp(target) !in d.files
              && (if target in old(d.files)
                  then Bak(target) in d.files && d.files[Bak(target)] == old(d.files)[target]
                  else Bak(target) !in d.files)
    ensures r.Err? && r.error !in {RenameFailed, VerifyFailed} ==> Untouched(d.files, old(d.files), target)
    ensures r == Err(RenameFailed) && !plan.restore.Broken? ==> Untouched(d.files, old(d.files), target)
    ensures r == Err(RenameFailed) && plan.restore.Broken? && target in old(d.files) ==>
              && target in d.files && d.files[target] == plan.restore.partial
              && Bak(target) in d.files && d.files[Bak(target)] == old(d.files)[target]
    ensures r == Err(VerifyFailed) ==>
              && target in d.files && d.files[target] == content
              && (if target in old(d.files)
                  then Bak(target) in d.files && d.files[Bak(target)] == old(d.files)[target]
                  else Bak(target) !in d.files)
    ensures Careful(old(d.files), old(d.history), d.files, d.history, target)
    ensures Allowed(EditRun(CommandLine, old(d.files), d.history[|old(d.history)|..], d.files, content,
                            if r.Ok? then Replaced else NotDone), target)
  {
    hide Allowed, Careful, Bak, BakOld, DotTmp, RetryVerdict;
    ghost var f0, h0 := d.files, d.history;
    var backedUp := BackUpIfPresent(d, target, plan);
    if backedUp.Err? {
      WriterRun(CommandLine, f0, h0, d.files, d.history, target, content, false);
      return backedUp;
    }
    if !plan.makeDirectory {
      WriterRun(CommandLine, f0, h0, d.files, d.history, target, content, false);
      return Err(DirectoryFailed);
    }
    ghost var f1, h1 := d.files, d.history;
    var written := WriteTmp(d, target, content, plan.write);
    CarefulThen(f0, h0, f1, h1, d.files, d.history, target);
    if !written {
      WriterRun(CommandLine, f0, h0, d.files, d.history, target, content, false);
      return Err(TmpFailed);
    }
    if !plan.sync {
      WriterRun(CommandLine, f0, h0, d.files, d.history, target, content, false);
      return Err(SyncFailed);
    }
    ghost var f2, h2 := d.files, d.history;
    var moved := SwapIn(d, target, plan.renames, plan.dropTmp, plan.restore);
    CarefulThen(f0, h0, f2, h2, d.files, d.history, target);
    if !moved {
      WriterRun(CommandLine, f0, h0, d.files, d.history, target, content, false);
      return Err(RenameFailed);
    }
    WriterRun(CommandLine, f0, h0, d.files, d.history, target, content, plan.parses);
    r := if plan.parses then Ok(()) else Err(VerifyFailed);
  }

  // ---------------------------------------------------------------- the adapter writer

  datatype ApplyOutcome = NoChange | Created | Updated

  datatype ApplyPlan = ApplyPlan(
    read: bool, makeDirectory: bool, write: Transfer, dropBak: bool, toBak: bool, toTarget: bool)

  function Existing(files: Files, target: Name): string {
    if target in files then files[target] else ""
  }

  // The temporary file takes the place of a live one, which becomes the only backup.
  method Promote(d: Disk, target: Name, plan: ApplyPlan) returns (r: Result<(), WriteError>)
    requires Tmp(target) in d.files
    modifies d
    ensures r.Ok? <==> plan.toTarget && (target in old(d.files) ==> plan.toBak)
    ensures r.Ok? ==> target in d.files && d.files[target] == old(d.files)[Tmp(target)] && Tmp(target) !in d.files
    ensures r.Ok? && target in old(d.files) ==>
              Bak(target) in d.files && d.files[Bak(target)] == old(d.files)[target]
    ensures target !in old(d.files) ==> Untouched(d.files, old(d.files), Bak(target))
    ensures r.Err? && target in old(d.files) && target !in d.files ==>
              r.error == RenameFailed && Bak(target) in d.files && d.files[Bak(target)] == old(d.files)[target]
    ensures r == Err(RenameFailed) && target in old(d.files) ==> target !in d.files
    ensures r.Err? && target in d.files ==> Untouched(d.files, old(d.files), target)
    ensures r.Err? ==> r.error in {BackupFailed, RenameFailed}
    ensures Careful(old(d.files), old(d.history), d.files, d.history, target)
  {
    hide Bak, BakOld, DotTmp, Tmp;
    NamesDiffer(target);
    if target in d.files {
      d.Remove(Bak(target), plan.dropBak);
      var kept := d.Rename(target, Bak(target), plan.toBak);
      if !kept {
        return Err(BackupFailed);
      }
    }
    var moved := d.Rename(Tmp(target), target, plan.toTarget);
    r := if moved then Ok(()) else Err(RenameFailed);
  }

  // The new content goes to the temporary name first.
  method WriteAside(d: Disk, target: Name, content: string, io: Transfer) returns (ok: bool)
    modifies d
    ensures ok <==> io.Done?
    ensures ok ==> Tmp(target) in d.files && d.files[Tmp(target)] == content
    ensures Untouched(d.files, old(d.files), target) && Untouched(d.files, old(d.files), Bak(target))
    ensures Careful(old(d.files), old(d.history), d.files, d.history, target)
  {
    hide Bak, BakOld, DotTmp, Tmp;
    NamesDiffer(target);
    ok := d.Transmit(Tmp(target), content, io);
  }

  /** Rename the live file to the backup, then the new file to its place; unchanged content touches nothing. */
  method Apply(d: Disk, target: Name, merge: string -> Option<string>, plan: ApplyPlan)
    returns (r: Result<ApplyOutcome, WriteError>)
    modifies d
    ensures r.Ok? <==>
              var merged := merge(Existing(old(d.files), target));
              && (target in old(d.files) ==> plan.read)
              && merged.Some?
              && (merged.value == Existing(old(d.files), target)
                  || (&& plan.makeDirectory && plan.write.Done? && plan.toTarget
                      && (target in old(d.files) ==> plan.toBak)))
    ensures r.Ok? ==>
              var before, after := Existing(old(d.files), target), merge(Existing(old(d.files), target)).value;
              if after == before then r.value == NoChange && d.files == old(d.files) && d.history == old(d.history)
              else
                && target in d.files && d.files[target] == after && Tmp(target) !in d.files
                && (if target in old(d.files)
                    then r.value == Updated && Bak(target) in d.files && d.files[Bak(target)] == before
                    else r.value == Created && Untouched(d.files, old(d.files), Bak(target)))
    ensures r.Err? && target in old(d.files) && target !in d.files ==>
              r.error == RenameFailed && Bak(target) in d.files && d.files[Bak(target)] == old(d.files)[target]
    ensures r == Err(RenameFailed) && target in old(d.files) ==> target !in d.files
    ensures r.Err? && target in d.files ==> Untouched(d.files, old(d.files), target)
    ensures Careful(old(d.files), old(d.history), d.files, d.history, target)
    ensures r.Ok? && r.value != NoChange ==>
              Allowed(EditRun(Adapter, old(d.files), d.history[|old(d.history)|..], d.files,
                              merge(Existing(old(d.files), target)).value, Replaced), target)
    ensures r.Err? || r.value == NoChange ==>
              Allowed(EditRun(Adapter, old(d.files), d.history[|old(d.history)|..], d.files, "", NotDone), target)
  {
    hide Allowed, Careful, Bak, Tmp;
    ghost var f0, h0 := d.files, d.history;
    NothingIsCareful(f0, h0, target);
    if target in d.files && !plan.read {
      WriterRun(Adapter, f0, h0, d.files, d.history, target, "", false);
      return Err(ReadFailed);
    }
    var existing := Existing(d.files, target);
    var merged := merge(existing);
    if merged.None? {
      WriterRun(Adapter, f0, h0, d.files, d.history, target, "", false);
      return Err(MergeFailed);
    }
    if merged.value == existing {
      WriterRun(Adapter, f0, h0, d.files, d.history, target, "", false);
      return Ok(NoChange);
    }
    if !plan.makeDirectory {
      WriterRun(Adapter, f0, h0, d.files, d.history, target, "", false);
      return Err(DirectoryFailed);
    }
    var written := WriteAside(d, target, merged.value, plan.write);
    if !written {
      WriterRun(Adapter, f0, h0, d.files, d.history, target, "", false);
      return Err(TmpFailed);
    }
    ghost var f1, h1 := d.files, d.history;
    var present := target in d.files;
    var promoted := Promote(d, target, plan);
    CarefulThen(f0, h0, f1, h1, d.files, d.history, target);
    if promoted.Err? {
      WriterRun(Adapter, f0, h0, d.files, d.history, target, "", false);
      return Err(promoted.error);
    }
    WriterRun(Adapter, f0, h0, d.files, d.history, target, merged.value, true);
    r := Ok(if present then Updated else Created);
  }

  lemma NothingIsCareful(a: Files, h: seq<Files>, target: Name)
    ensures Careful(a, h, a, h, target)
  {}

  // ---------------------------------------------------------------- one writer after another

  /** How a run of a writer ends: cut off, returned without putting the new content in place, or with it in place. */
  datatype Outcome = Cut | NotDone | Replaced

  datatype Writer = Desktop | CommandLine | Adapter

  /** A run of a writer on one target: the disk states it passed through and the one it left. */
  datatype EditRun = EditRun(
    writer: Writer, start: Files, trail: seq<Files>, end: Files, content: string, outcome: Outcome)

  // What the contracts of the writers say of a run.
  ghost predicate Allowed(r: EditRun, target: Name) {
    && (target in r.start ==>
          Recoverable(r.end, target, r.start[target]) && AllRecoverable(r.trail, 0, target, r.start[target]))
    && (r.outcome.Replaced? ==>
          && target in r.end && r.end[target] == r.content
          && (if target in r.start then Bak(target) in r.end && r.end[Bak(target)] == r.start[target]
              else CreatesWith(r.writer, r.start, r.end, target)))
  }

  // A missing target: the desktop writer gives up, the command-line writer deletes a backup, the adapter keeps it.
  predicate CreatesWith(w: Writer, start: Files, end: Files, target: Name) {
    match w
    case Desktop => false
    case CommandLine => Bak(target) !in end
    case Adapter => Untouched(end, start, Bak(target))
  }

  /** Every run that meets a writer's contract is such a run ... */
  lemma WriterRun(w: Writer, a: Files, h: seq<Files>, b: Files, j: seq<Files>,
                  target: Name, content: string, done: bool)
    requires Careful(a, h, b, j, target)
    requires done ==> target in b && b[target] == content
    requires done && target in a ==> Bak(target) in b && b[Bak(target)] == a[target]
    requires done && target !in a ==> CreatesWith(w, a, b, target)
    ensures Allowed(EditRun(w, a, j[|h|..], b, content, if done then Replaced else NotDone), target)
  {}

  /** ... and so is one that is cut off at any state it passes through. */
  lemma CutRun(r: EditRun, target: Name, k: nat)
    requires Allowed(r, target) && k < |r.trail|
    ensures Allowed(EditRun(r.writer, r.start, r.trail[..k + 1], r.trail[k], r.content, Cut), target)
  {}

  ghost predicate Chained(runs: seq<EditRun>, target: Name) {
    && (forall i | 0 <= i < |runs| :: Allowed(runs[i], target))
    && (forall i | 0 < i < |runs| :: runs[i].start == runs[i - 1].end)
  }

  // The content to protect when run i starts: the last one that a run put in place, else the first one.
  function GoodAt(runs: seq<EditRun>, first: string, i: nat): string
    requires i <= |runs|
  {
    if i == 0 then first
    else if runs[i - 1].outcome.Replaced? then runs[i - 1].content
    else GoodAt(runs, first, i - 1)
  }

  // Run i finds that content in the target.
  predicate SteadyAt(runs: seq<EditRun>, target: Name, first: string, i: nat)
    requires i < |runs|
  {
    target in runs[i].start && runs[i].start[target] == GoodAt(runs, first, i)
  }

  /** While every run finds the good content in the target, each crash point of each run keeps it in target or
      backup, and so does the end. */
  lemma GoodContentKept(runs: seq<EditRun>, target: Name, first: string)
    requires Chained(runs, target) && forall i | 0 <= i < |runs| :: SteadyAt(runs, target, first, i)
    ensures forall i, k | 0 <= i < |runs| && 0 <= k < |runs[i].trail| ::
              Recoverable(runs[i].trail[k], target, GoodAt(runs, first, i))
    ensures forall i | 0 <= i < |runs| :: Recoverable(runs[i].end, target, GoodAt(runs, first, i + 1))
  {
    forall i | 0 <= i < |runs|
      ensures forall k | 0 <= k < |runs[i].trail| :: Recoverable(runs[i].trail[k], target, GoodAt(runs, first, i))
      ensures Recoverable(runs[i].end, target, GoodAt(runs, first, i + 1))
    {
      assert SteadyAt(runs, target, first, i) && Allowed(runs[i], target);
    }
  }

  /** What a run that puts new content in place leaves of any text, in target or backup: what it found in the target,
      what it wrote, and, if there was no target, what the adapter found in the backup. */
  lemma ReplacingKeepsIff(r: EditRun, target: Name, text: string)
    requires Allowed(r, target) && r.outcome.Replaced?
    ensures Recoverable(r.end, target, text) <==>
              || text == r.content
              || (if target in r.start then r.start[target] == text
                  else r.writer.Adapter? && Bak(target) in r.start && r.start[Bak(target)] == text)
  {}

  /** So the condition above is exact: a run that puts other content in place over a target keeps the good content if
      and only if it found it there; without a target, if and only if the adapter found it in the backup. */
  lemma GoodContentSurvivesIff(runs: seq<EditRun>, target: Name, first: string, i: nat)
    requires Chained(runs, target) && i < |runs| && runs[i].outcome.Replaced?
    requires runs[i].content != GoodAt(runs, first, i)
    ensures Recoverable(runs[i].end, target, GoodAt(runs, first, i)) <==>
              || SteadyAt(runs, target, first, i)
              || (&& target !in runs[i].start && runs[i].writer.Adapter? && Bak(target) in runs[i].start
                  && runs[i].start[Bak(target)] == GoodAt(runs, first, i))
  {
    ReplacingKeepsIff(runs[i], target, GoodAt(runs, first, i));
  }

  /** Two writers on one target: the adapter is cut off between its renames, so that only the backup has the good
      content, and the command-line writer then replaces the missing target and deletes that backup. */
  lemma CutAdapterThenCommandLine(target: Name, good: string, wanted: string, other: string)
      returns (runs: seq<EditRun>)
    requires other != good
    ensures Chained(runs, target) && |runs| == 2
    ensures runs[0].writer == Adapter && runs[0].outcome == Cut && runs[0].content == wanted
    ensures SteadyAt(runs, target, good, 0) && GoodAt(runs, good, 1) == good
    ensures runs[1].writer == CommandLine && runs[1].outcome == Replaced && runs[1].content == other
    ensures Recoverable(runs[0].end, target, good) && !Recoverable(runs[1].end, target, good)
  {
    NamesDiffer(target);
    var start: Files := map[target := good];
    var aside: Files := start[Tmp(target) := wanted];
    var between: Files := map[Tmp(target) := wanted, Bak(target) := good];
    var after: Files := map[Tmp(target) := wanted, target := other];
    var cut := EditRun(Adapter, start, [aside, between], between, wanted, Cut);
    var create := EditRun(CommandLine, between, [after], after, other, Replaced);
    assert Tmp(target) != target;
    runs := [cut, create];
    assert runs[1].start == runs[0].end;
    assert Allowed(cut, target) && Allowed(create, target);
  }

  /** Runs that leave the target as it was unless they put the new content in place find it there for good: only a
      crash, a partial restore or a failed check of the new content calls for the backup before the next run. */
  lemma {:induction false} TidyRunsStaySteady(runs: seq<EditRun>, target: Name, first: string, i: nat)
    requires Chained(runs, target) && i < |runs| && SteadyAt(runs, target, first, 0)
    requires forall k | 0 <= k < i :: !runs[k].outcome.Replaced? ==> Untouched(runs[k].end, runs[k].start, target)
    ensures SteadyAt(runs, target, first, i)
  {
    if i > 0 {
      TidyRunsStaySteady(runs, target, first, i - 1);
      assert Allowed(runs[i - 1], target) && runs[i].start == runs[i - 1].end;
    }
  }
}
