// What becomes of the files, told from the fate of the single system calls.
module Fates {
  import opened Text
  import opened Table
  import opened Reload
  import opened Disk

  // A rotation goes through exactly when its two renames do, whether or not there
  // was a live file to set aside.
  lemma RotateOneDone(d: Disk, f: File, env: Env, b: nat)
    requires Path(f, New) in d
    ensures RotateOne(d, f, env, b).status.Done? <==> env(b).Works? && env(b + 1).Works?
  {
  }

  lemma RotateAttrDone(d: Disk, env: Env, b: nat)
    requires Path(Attr, New) in d
    ensures RotateAttr(d, env, b).status.Done? <==> env(b).Works? && env(b + 3).Works?
  {
  }

  lemma RotateIndexDone(d: Disk, env: Env, b: nat)
    requires Path(Index, New) in d && Path(Attr, New) in d
    ensures RotateIndex(d, env, b).status.Done? <==>
      env(b).Works? && env(b + 1).Works? && env(b + 3).Works? && env(b + 6).Works?
  {
    RotateOneDone(d, Index, env, b);
    RotateOneKeeps(d, Index, env, b);
    var r := RotateOne(d, Index, env, b);
    if r.status.Done? { RotateAttrDone(r.disk, env, b + 3); }
  }

  // The calls that a replacement and a commit need.
  predicate ReplaceWorks(env: Env, b: nat) {
    && env(b).Works? && env(b + 1).Works?
    && env(b + 2).Works? && env(b + 3).Works? && env(b + 5).Works? && env(b + 8).Works?
  }

  predicate CommitWorks(env: Env, b: nat) {
    && env(b).Works? && env(b + 1).Works? && env(b + 2).Works? && env(b + 3).Works?
    && env(b + 4).Works? && env(b + 5).Works?
    && env(b + 7).Works? && env(b + 8).Works? && env(b + 10).Works? && env(b + 13).Works?
  }

  // Replacing the database goes through exactly when there is a row to be saved,
  // both saves work and so do the four renames.
  lemma ReplaceDone(d: Disk, rows: seq<Row>, unique: bool, env: Env, b: nat)
    ensures ReplaceIndex(d, rows, unique, env, b).status.Done? <==>
      rows != [] && ReplaceWorks(env, b)
  {
    var s := SaveIndex(d, rows, unique, env, b);
    if s.status.Done? { RotateIndexDone(s.disk, env, b + 2); }
  }

  // A commit, when the certificates' file names are short enough, too, and they
  // can be written.
  lemma CommitDone(d: Disk, rows: seq<Row>, unique: bool, serial: nat, named: bool, env: Env, b: nat)
    ensures CommitFiles(d, rows, unique, serial, named, env, b).status.Done? <==>
      rows != [] && named && CommitWorks(env, b)
  {
    var r := Save(d, Path(Serial, New), Number(serial), env(b));
    var s := SaveIndex(r.disk, rows, unique, env, b + 1);
    if r.status.Done? && s.status.Done? && named && env(b + 3).Works? {
      CommitRenames(s.disk, env, b);
    }
  }

  lemma CommitRenames(d: Disk, env: Env, b: nat)
    requires Path(Serial, New) in d && Path(Index, New) in d && Path(Attr, New) in d
    ensures var t := RotateOne(d, Serial, env, b + 4);
      (t.status.Done? && RotateIndex(t.disk, env, b + 7).status.Done?) <==>
        && env(b + 4).Works? && env(b + 5).Works?
        && env(b + 7).Works? && env(b + 8).Works? && env(b + 10).Works? && env(b + 13).Works?
  {
    RotateOneDone(d, Serial, env, b + 4);
    RotateOneKeeps(d, Serial, env, b + 4);
    var t := RotateOne(d, Serial, env, b + 4);
    if t.status.Done? { RotateIndexDone(t.disk, env, b + 7); }
  }

  lemma NumberDone(d: Disk, next: nat, env: Env, b: nat)
    ensures NumberFiles(d, next, env, b).status.Done? <==>
      env(b).Works? && env(b + 1).Works? && env(b + 2).Works? && env(b + 3).Works?
  {
    var r := Save(d, Path(CrlNumber, New), Number(next), env(b));
    if r.status.Done? { RotateOneDone(r.disk, CrlNumber, env, b + 2); }
  }

  // ------------------------------------------------------ rotations cut short

  // What was live is live again, the new version is, or none is.
  datatype Fate = Was | Now | Gone

  predicate Meets(d: Disk, f: File, fate: Fate, was: Content, now: Content) {
    match fate
    case Was => LiveIs(d, f, was)
    case Now => LiveIs(d, f, now)
    case Gone => Path(f, Live) !in d && Path(f, Old) in d && d[Path(f, Old)] == was
  }

  // The first half of a rotation: setting aside, putting in place, putting back.
  function FirstHalf(aside: Event, place: Event, back: Event): Fate {
    if !aside.Works? then Was
    else if place.Works? then Now
    else if place.Fails? && back.Works? then Was
    else Gone
  }

  // Putting the index back: taking the new one out of place, then renaming.
  function PutBack(out: Event, back: Event): Fate {
    if out.Stops? then Now
    else if back.Works? then Was
    else if out.Works? then Gone
    else Now
  }

  // What becomes of the index while its attribute file is rotated.
  function SecondHalf(env: Env, b: nat): Fate {
    if env(b).Stops? then Now
    else if env(b).Fails? then PutBack(env(b + 1), env(b + 2))
    else if env(b + 3).Fails? && !env(b + 4).Stops? then PutBack(env(b + 5), env(b + 6))
    else Now
  }

  // And of the whole rotation.
  function IndexFate(env: Env, b: nat): Fate {
    if env(b).Works? && env(b + 1).Works? then SecondHalf(env, b + 3)
    else FirstHalf(env(b), env(b + 1), env(b + 2))
  }

  lemma RotateOneFate(d: Disk, f: File, env: Env, b: nat)
    requires Path(f, Live) in d && Path(f, New) in d
    ensures Meets(RotateOne(d, f, env, b).disk, f, FirstHalf(env(b), env(b + 1), env(b + 2)),
      d[Path(f, Live)], d[Path(f, New)])
  {
  }

  lemma PutBackFate(r: Io, env: Env, b: nat, was: Content, now: Content)
    requires Rotated(r.disk, was, now) && r.status.Error?
    ensures Meets(RestoreIndex(r, env, b).disk, Index, PutBack(env(b), env(b + 1)), was, now)
  {
  }

  lemma RotateAttrFate(d: Disk, env: Env, b: nat, was: Content, now: Content)
    requires Rotated(d, was, now) && Path(Attr, New) in d
    ensures Meets(RotateAttr(d, env, b).disk, Index, SecondHalf(env, b), was, now)
  {
    var s := SetAside(d, Attr, env(b));
    if s.status.Error? {
      PutBackFate(s, env, b + 1, was, now);
    } else if s.status.Done? {
      var t := Rename(s.disk, Path(Attr, New), Path(Attr, Live), env(b + 3));
      var u := Undo(t, Path(Attr, Old), Path(Attr, Live), env(b + 4));
      if t.status.Error? && u.status.Error? { PutBackFate(u, env, b + 5, was, now); }
    }
  }

  // The whole rotation of the index: call by call, which version is live.
  lemma RotateIndexFate(d: Disk, env: Env, b: nat)
    requires Path(Index, Live) in d && Path(Index, New) in d && Path(Attr, New) in d
    ensures Meets(RotateIndex(d, env, b).disk, Index, IndexFate(env, b), d[Path(Index, Live)], d[Path(Index, New)])
  {
    RotateOneFate(d, Index, env, b);
    RotateOneDone(d, Index, env, b);
    RotateOneLive(d, Index, env, b);
    RotateOneKeeps(d, Index, env, b);
    var r := RotateOne(d, Index, env, b);
    if r.status.Done? { RotateAttrFate(r.disk, env, b + 3, d[Path(Index, Live)], d[Path(Index, New)]); }
  }

  // The same for the rotation as part of a replacement and of a commit: nothing is
  // renamed before everything has been saved, and the certificates written; and
  // the index is not touched unless the counter is in place.
  lemma ReplaceFate(d: Disk, rows: seq<Row>, unique: bool, env: Env, b: nat)
    requires Path(Index, Live) in d
    ensures var began := rows != [] && env(b).Works? && env(b + 1).Works?;
      Meets(ReplaceIndex(d, rows, unique, env, b).disk, Index, if began then IndexFate(env, b + 2) else Was,
        d[Path(Index, Live)], Stored(IndexText(SaveText(rows)), env(b)))
  {
    SaveIndexKeeps(d, rows, unique, env, b);
    var s := SaveIndex(d, rows, unique, env, b);
    if s.status.Done? { RotateIndexFate(s.disk, env, b + 2); }
  }

  lemma CommitFate(d: Disk, rows: seq<Row>, unique: bool, serial: nat, named: bool, env: Env, b: nat)
    requires Path(Index, Live) in d && Path(Serial, Live) in d
    ensures var began := && rows != [] && named && env(b).Works? && env(b + 1).Works? && env(b + 2).Works?
                         && env(b + 3).Works?;
      var e := CommitFiles(d, rows, unique, serial, named, env, b).disk;
      && Meets(e, Serial, if began then FirstHalf(env(b + 4), env(b + 5), env(b + 6)) else Was,
           d[Path(Serial, Live)], Stored(Number(serial), env(b)))
      && Meets(e, Index,
           if began && env(b + 4).Works? && env(b + 5).Works? then IndexFate(env, b + 7) else Was,
           d[Path(Index, Live)], Stored(IndexText(SaveText(rows)), env(b + 1)))
  {
    var r := Save(d, Path(Serial, New), Number(serial), env(b));
    if r.status.Done? {
      SaveIndexKeeps(r.disk, rows, unique, env, b + 1);
      var s := SaveIndex(r.disk, rows, unique, env, b + 1);
      assert LiveIs(s.disk, Serial, d[Path(Serial, Live)]) && LiveIs(s.disk, Index, d[Path(Index, Live)]);
      if s.status.Done? && named && env(b + 3).Works? {
        assert NewIs(s.disk, Serial, Stored(Number(serial), env(b)));
        TwoRotations(s.disk, env, b);
      }
    }
  }

  lemma TwoRotations(d: Disk, env: Env, b: nat)
    requires Path(Serial, Live) in d && Path(Serial, New) in d
    requires Path(Index, Live) in d && Path(Index, New) in d && Path(Attr, New) in d
    ensures var t := RotateOne(d, Serial, env, b + 4);
      var e := if t.status.Done? then RotateIndex(t.disk, env, b + 7).disk else t.disk;
      && Meets(e, Serial, FirstHalf(env(b + 4), env(b + 5), env(b + 6)), d[Path(Serial, Live)], d[Path(Serial, New)])
      && Meets(e, Index, if env(b + 4).Works? && env(b + 5).Works? then IndexFate(env, b + 7) else Was,
           d[Path(Index, Live)], d[Path(Index, New)])
  {
    RotateOneFate(d, Serial, env, b + 4);
    RotateOneDone(d, Serial, env, b + 4);
    RotateOneKeeps(d, Serial, env, b + 4);
    var t := RotateOne(d, Serial, env, b + 4);
    if t.status.Done? {
      RotateIndexFate(t.disk, env, b + 7);
      RotateIndexKeeps(t.disk, env, b + 7);
    }
  }
}
