/** Saving a file behind a backup (file.go). */
module SaveFile {
  import opened HostMachine

  /** Moves an existing file aside, writes the new contents, and on a failed write puts the
      old file back. */
  method SaveFileContents(contents: string, f: File, h: Host) returns (err: Error)
    requires h.Valid()
    modifies h
    ensures h.Valid() && h.Steady() && h.misreported == old(h.misreported)
    ensures h.s == old(h.s).(files := h.s.files) && h.s.files - {f} == old(h.s.files) - {f}
    ensures forall g <- old(h.backups) :: g != f ==> g in h.backups && h.backups[g] == old(h.backups)[g]
    // success is exact
    ensures err == Nil ==> h.s.files == old(h.s.files)[f := contents] && h.stranded == old(h.stranded)
    ensures err == Nil && f in old(h.s.files) ==> f in h.backups && h.backups[f] == old(h.s.files)[f]
    ensures h.reliable ==> err == Nil
    // whatever fails, the old contents are in the file or in the backup
    ensures f in old(h.s.files) ==>
              || (f in h.s.files && h.s.files[f] == old(h.s.files)[f])
              || (f in h.backups && h.backups[f] == old(h.s.files)[f])
    // unless the recovery fails too, a failed save leaves an existing file as it was
    ensures err != Nil && f in old(h.s.files) && !h.stranded ==> h.s.files == old(h.s.files)
    // so with at most one failed call an existing file holds the old or the new contents
    ensures f in old(h.s.files) && h.faults <= old(h.faults) + 1 && !old(h.stranded) ==>
              !h.stranded && f in h.s.files && (h.s.files[f] == old(h.s.files)[f] || h.s.files[f] == contents)
  {
    var present := h.FileExists(f);
    if present {
      err := h.RenameToBackup(f);
      if err != Nil {
        return Failed;
      }
    }
    err := h.WriteFile(f, contents);
    if err != Nil {
      if present {
        err := RecoverFile(f, h);
        if !h.stranded {
          ghost var was, now := old(h.s.files), h.s.files;
          assert was == (was - {f})[f := was[f]] && now == (now - {f})[f := now[f]];
        }
        return;
      }
      return Failed;
    }
  }

  /** Puts the backup back; an error either way, as the save has failed. */
  method RecoverFile(f: File, h: Host) returns (err: Error)
    requires h.Valid() && f in h.backups
    modifies h
    ensures h.Valid() && h.Steady() && h.misreported == old(h.misreported) && err == Failed
    ensures if h.stranded == old(h.stranded) && !h.stranded
            then h.faults == old(h.faults) && h.s == old(h.s).(files := old(h.s.files)[f := old(h.backups)[f]])
              && h.backups == old(h.backups) - {f}
            else h.stranded
    ensures h.s == old(h.s).(files := h.s.files) && h.s.files - {f} == old(h.s.files) - {f}
    ensures forall g <- old(h.backups) :: g != f ==> g in h.backups && h.backups[g] == old(h.backups)[g]
    ensures || (f in h.s.files && h.s.files[f] == old(h.backups)[f])
            || (f in h.backups && h.backups[f] == old(h.backups)[f])
    ensures !old(h.stranded) && h.stranded ==> h.faults == old(h.faults) + 1
  {
    var e := h.RenameFromBackup(f);
    err := Failed;
  }
}
