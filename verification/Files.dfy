// The system calls of the program, and its save and rotate routines as it
// writes them. When the machine stops, no later call does anything.
module Files {
  import opened Table
  import opened Reload
  import opened Disk
  import opened CaDb

  class Files {
    const env: Env
    var disk: Disk
    var up: bool

    constructor (d: Disk, env: Env)
      ensures disk == d && up && this.env == env
    {
      disk, up, this.env := d, true, env;
    }

    // The calls made so far came to this.
    ghost predicate Did(ok: bool, io: Io)
      reads this
    {
      disk == io.disk && (ok <==> io.status.Done?) && (up <==> !io.status.Stopped?)
    }

    // Open a file for writing and write it.
    method Put(p: Path, c: Content, at: nat) returns (ok: bool)
      requires up
      modifies this
      ensures Did(ok, Save(old(disk), p, c, env(at)))
    {
      match env(at)
      case Works(_) => disk, ok := disk[p := Stored(c, env(at))], true;
      case Fails(left) => disk, ok := if left.Some? then disk[p := left.value] else disk, false;
      case Stops(left) => disk, up, ok := if left.Some? then disk[p := left.value] else disk, false, false;
    }

    // rename; missing is the error number ENOENT.
    method Move(src: Path, dst: Path, at: nat) returns (ok: bool, missing: bool)
      modifies this
      ensures old(up) ==> Did(ok, Rename(old(disk), src, dst, env(at)))
      ensures !old(up) ==> disk == old(disk) && !up && !ok
      ensures missing <==> old(up) && env(at).Works? && src !in old(disk)
    {
      ok, missing := false, false;
      if !up || env(at).Fails? { return; }
      if env(at).Stops? { up := false; return; }
      if src !in disk { missing := true; return; }
      disk, ok := Moved(disk, src, dst), true;
    }

    // A step whose outcome is not part of the disk: signing, writing a result.
    method Attempt(at: nat) returns (ok: bool)
      requires up
      modifies this`up
      ensures ok <==> env(at).Works?
      ensures ok ==> up
    {
      up := !env(at).Stops?;
      ok := env(at).Works?;
    }

    // rotate_serial.
    method RotateSerial(f: File, at: nat) returns (ok: bool)
      requires up
      modifies this
      ensures Did(ok, RotateOne(old(disk), f, env, at))
    {
      var moved, missing := Move(Path(f, Live), Path(f, Old), at);
      if !moved && !missing { return false; }
      moved, missing := Move(Path(f, New), Path(f, Live), at + 1);
      if !moved {
        moved, missing := Move(Path(f, Old), Path(f, Live), at + 2);
        return false;
      }
      ok := true;
    }

    // rotate_index.
    method RotateIndexFiles(at: nat) returns (ok: bool)
      requires up
      modifies this
      ensures Did(ok, RotateIndex(old(disk), env, at))
    {
      var moved, missing := Move(Path(Index, Live), Path(Index, Old), at);
      if !moved && !missing { return false; }
      moved, missing := Move(Path(Index, New), Path(Index, Live), at + 1);
      if !moved {
        moved, missing := Move(Path(Index, Old), Path(Index, Live), at + 2);
        return false;
      }
      ok := RotateAttrFiles(at + 3);
    }

    // Its second half, for the attribute file.
    method RotateAttrFiles(at: nat) returns (ok: bool)
      requires up
      modifies this
      ensures Did(ok, RotateAttr(old(disk), env, at))
    {
      var moved, missing := Move(Path(Attr, Live), Path(Attr, Old), at);
      if !moved && !missing {
        PutIndexBack(at + 1);
        return false;
      }
      moved, missing := Move(Path(Attr, New), Path(Attr, Live), at + 3);
      if !moved {
        moved, missing := Move(Path(Attr, Old), Path(Attr, Live), at + 4);
        PutIndexBack(at + 5);
        return false;
      }
      ok := true;
    }

    method PutIndexBack(at: nat)
      modifies this
      ensures var r := RestoreIndex(Io(old(disk), if old(up) then Error else Stopped), env, at);
        disk == r.disk && (up <==> !r.status.Stopped?)
    {
      var moved, missing := Move(Path(Index, Live), Path(Index, New), at);
      moved, missing := Move(Path(Index, Old), Path(Index, Live), at + 1);
    }

    // save_index.
    method SaveIndexFiles(db: Db, at: nat) returns (ok: bool)
      requires up && db.Shows()
      modifies this
      ensures Did(ok, SaveIndex(old(disk), db.table.rows, db.unique, env, at))
    {
      var rows := db.Values();
      ok := Put(Path(Index, New), IndexText(SaveText(rows)), at);
      if !ok || |rows| == 0 { return false; }
      ok := Put(Path(Attr, New), UniqueFlag(db.unique), at + 1);
    }
  }
}
