// The files of the certificate authority and the protocol that replaces them:
// a new version is written beside the live file, and renames put it in place.
// Every system call may fail, and the machine may stop at any of them.
module Disk {
  import opened Text
  import opened Table
  import opened Reload

  datatype File = Index | Attr | Serial | CrlNumber

  // A file, its ".new" and its ".old" version.
  datatype Slot = Live | New | Old

  datatype Path = Path(file: File, slot: Slot)

  // What a file holds; Garbage cannot be read as anything.
  datatype Content = IndexText(text: string) | UniqueFlag(flag: bool) | Number(n: nat) | Garbage

  type Disk = map<Path, Content>

  // How one system call goes. Some(c) as what is left means that the file that
  // was to be written holds c in the end. A write that fails or is cut short may
  // leave a torn file; but a torn file may also be left by one that is reported
  // as done, because the programs look neither at what the last writes to a file
  // return nor at what closing it does.
  datatype Event =
    | Works(left: Option<Content>)
    | Fails(left: Option<Content>)
    | Stops(left: Option<Content>)

  // The fate of the numbered system calls of a run.
  type Env = nat -> Event

  datatype Status = Done | Error | Stopped

  datatype Io = Io(disk: Disk, status: Status)

  function NumberOf(c: Content): Option<nat> {
    if c.Number? then Some(c.n) else None
  }

  function LiveNumber(d: Disk, f: File): Option<nat> {
    if Path(f, Live) in d then NumberOf(d[Path(f, Live)]) else None
  }

  // ----------------------------------------------------------- system calls

  // What a write of c that is reported as done has left.
  function Stored(c: Content, e: Event): Content {
    if e.Works? && e.left.Some? then e.left.value else c
  }

  // Opening a file for writing, writing it and closing it.
  function Save(d: Disk, p: Path, c: Content, e: Event): Io {
    match e
    case Works(_) => Io(d[p := Stored(c, e)], Done)
    case Fails(left) => Io(if left.Some? then d[p := left.value] else d, Error)
    case Stops(left) => Io(if left.Some? then d[p := left.value] else d, Stopped)
  }

  function Moved(d: Disk, src: Path, dst: Path): Disk
    requires src in d
  {
    (d - {src})[dst := d[src]]
  }

  function Rename(d: Disk, src: Path, dst: Path, e: Event): Io {
    match e
    case Works(_) => if src in d then Io(Moved(d, src, dst), Done) else Io(d, Error)
    case Fails(_) => Io(d, Error)
    case Stops(_) => Io(d, Stopped)
  }

  // The rename whose failure is forgiven when there is no live file.
  function SetAside(d: Disk, f: File, e: Event): Io {
    if e.Works? && Path(f, Live) !in d then Io(d, Done)
    else Rename(d, Path(f, Live), Path(f, Old), e)
  }

  // A rename that undoes an earlier one on the way out: its failure is ignored.
  function Undo(r: Io, src: Path, dst: Path, e: Event): Io {
    if r.status.Stopped? then r
    else
      var u := Rename(r.disk, src, dst, e);
      Io(u.disk, if u.status.Stopped? then Stopped else Error)
  }

  // ----------------------------------------------------------- the protocol

  // rotate_serial -- for the serial or the CRL number -- and the first half of
  // rotate_index.
  function RotateOne(d: Disk, f: File, env: Env, b: nat): Io {
    var r := SetAside(d, f, env(b));
    if !r.status.Done? then r
    else
      var s := Rename(r.disk, Path(f, New), Path(f, Live), env(b + 1));
      if s.status.Error? then Undo(s, Path(f, Old), Path(f, Live), env(b + 2)) else s
  }

  // rotate_index: the index file and its attribute file change places one
  // after the other.
  function RotateIndex(d: Disk, env: Env, b: nat): Io {
    var r := RotateOne(d, Index, env, b);
    if r.status.Done? then RotateAttr(r.disk, env, b + 3) else r
  }

  // The second half: when it fails, the index file is put back, too.
  function RotateAttr(d: Disk, env: Env, b: nat): Io {
    var s := SetAside(d, Attr, env(b));
    if s.status.Error? then RestoreIndex(s, env, b + 1)
    else if s.status.Stopped? then s
    else
      var t := Rename(s.disk, Path(Attr, New), Path(Attr, Live), env(b + 3));
      if t.status.Error? then RestoreIndex(Undo(t, Path(Attr, Old), Path(Attr, Live), env(b + 4)), env, b + 5)
      else t
  }

  function RestoreIndex(r: Io, env: Env, b: nat): Io {
    Undo(Undo(r, Path(Index, Live), Path(Index, New), env(b)), Path(Index, Old), Path(Index, Live), env(b + 1))
  }

  // save_index: the rows, then the attributes. An empty table counts as an error.
  function SaveIndex(d: Disk, rows: seq<Row>, unique: bool, env: Env, b: nat): Io {
    var r := Save(d, Path(Index, New), IndexText(SaveText(rows)), env(b));
    if !r.status.Done? then r
    else if rows == [] then r.(status := Error)
    else Save(r.disk, Path(Attr, New), UniqueFlag(unique), env(b + 1))
  }

  // Both, as every change of the database does.
  function ReplaceIndex(d: Disk, rows: seq<Row>, unique: bool, env: Env, b: nat): Io {
    var r := SaveIndex(d, rows, unique, env, b);
    if r.status.Done? then RotateIndex(r.disk, env, b + 2) else r
  }

  // How ca_main puts new certificates on record: save the serial, save the
  // index, write the certificates, rotate the serial, rotate the index. named
  // says that the names of the certificate files are not too long.
  function CommitFiles(d: Disk, rows: seq<Row>, unique: bool, serial: nat, named: bool, env: Env, b: nat): Io {
    var r := Save(d, Path(Serial, New), Number(serial), env(b));
    if !r.status.Done? then r
    else
      var s := SaveIndex(r.disk, rows, unique, env, b + 1);
      if !s.status.Done? then s
      else if !named || !env(b + 3).Works? then s.(status := Error)
      else
        var t := RotateOne(s.disk, Serial, env, b + 4);
        if t.status.Done? then RotateIndex(t.disk, env, b + 7) else t
  }

  // How the CRL number is used up: the next number is saved, the CRL signed and
  // written out, and only then the next number put in place.
  function NumberFiles(d: Disk, next: nat, env: Env, b: nat): Io {
    var r := Save(d, Path(CrlNumber, New), Number(next), env(b));
    if !r.status.Done? then r
    else if !env(b + 1).Works? then r.(status := Error)
    else RotateOne(r.disk, CrlNumber, env, b + 2)
  }

  // ------------------------------------------------------------------ facts

  // No file but these has changed.
  ghost predicate SameBut(d: Disk, d': Disk, files: set<File>) {
    forall p: Path :: p.file !in files ==> (p in d' <==> p in d) && (p in d ==> d'[p] == d[p])
  }

  lemma RenameKeeps(d: Disk, f: File, src: Slot, dst: Slot, e: Event)
    ensures SameBut(d, Rename(d, Path(f, src), Path(f, dst), e).disk, {f})
  {
  }

  lemma RotateOneKeeps(d: Disk, f: File, env: Env, b: nat)
    ensures SameBut(d, RotateOne(d, f, env, b).disk, {f})
  {
    RenameKeeps(d, f, Live, Old, env(b));
    var r := SetAside(d, f, env(b));
    if r.status.Done? {
      RenameKeeps(r.disk, f, New, Live, env(b + 1));
      var s := Rename(r.disk, Path(f, New), Path(f, Live), env(b + 1));
      RenameKeeps(s.disk, f, Old, Live, env(b + 2));
    }
  }

  lemma RestoreIndexKeeps(r: Io, env: Env, b: nat)
    ensures SameBut(r.disk, RestoreIndex(r, env, b).disk, {Index})
  {
    RenameKeeps(r.disk, Index, Live, New, env(b));
    var s := Undo(r, Path(Index, Live), Path(Index, New), env(b));
    RenameKeeps(s.disk, Index, Old, Live, env(b + 1));
  }

  lemma RotateAttrKeeps(d: Disk, env: Env, b: nat)
    ensures SameBut(d, RotateAttr(d, env, b).disk, {Index, Attr})
  {
    RenameKeeps(d, Attr, Live, Old, env(b));
    var s := SetAside(d, Attr, env(b));
    RestoreIndexKeeps(s, env, b + 1);
    RenameKeeps(s.disk, Attr, New, Live, env(b + 3));
    var t := Rename(s.disk, Path(Attr, New), Path(Attr, Live), env(b + 3));
    RenameKeeps(t.disk, Attr, Old, Live, env(b + 4));
    RestoreIndexKeeps(Undo(t, Path(Attr, Old), Path(Attr, Live), env(b + 4)), env, b + 5);
  }

  // Replacing the database touches no counter.
  lemma ReplaceIndexKeeps(d: Disk, rows: seq<Row>, unique: bool, env: Env, b: nat)
    ensures SameBut(d, ReplaceIndex(d, rows, unique, env, b).disk, {Index, Attr})
  {
    var s := SaveIndex(d, rows, unique, env, b);
    assert SameBut(d, s.disk, {Index, Attr});
    if s.status.Done? { RotateIndexKeeps(s.disk, env, b + 2); }
  }

  lemma RotateIndexKeeps(d: Disk, env: Env, b: nat)
    ensures SameBut(d, RotateIndex(d, env, b).disk, {Index, Attr})
  {
    RotateOneKeeps(d, Index, env, b);
    var r := RotateOne(d, Index, env, b);
    if r.status.Done? { RotateAttrKeeps(r.disk, env, b + 3); }
  }

  // Cut the renames wherever you like: a file that was live is afterwards what
  // it was, the new version, or gone and set aside as the old version; the new
  // version for certain when the rotation reports success.
  lemma RotateOneLive(d: Disk, f: File, env: Env, b: nat)
    requires Path(f, Live) in d
    ensures var r := RotateOne(d, f, env, b);
      && (if Path(f, Live) in r.disk then
            r.disk[Path(f, Live)] == d[Path(f, Live)] ||
            (Path(f, New) in d && r.disk[Path(f, Live)] == d[Path(f, New)])
          else Path(f, Old) in r.disk && r.disk[Path(f, Old)] == d[Path(f, Live)])
      && (r.status.Done? ==> Path(f, New) in d && Path(f, Live) in r.disk && r.disk[Path(f, Live)] == d[Path(f, New)])
      && (r.status.Done? ==> Path(f, Old) in r.disk && r.disk[Path(f, Old)] == d[Path(f, Live)])
  {
  }

  predicate LiveIs(d: Disk, f: File, c: Content) {
    Path(f, Live) in d && d[Path(f, Live)] == c
  }

  predicate NewIs(d: Disk, f: File, c: Content) {
    Path(f, New) in d && d[Path(f, New)] == c
  }

  // The live file is one of two versions, or it is gone and the first of them
  // is there as the old version.
  predicate LiveAmong(d: Disk, f: File, was: Content, now: Content) {
    if Path(f, Live) in d then d[Path(f, Live)] == was || d[Path(f, Live)] == now
    else Path(f, Old) in d && d[Path(f, Old)] == was
  }

  // No attribute file that is live, or can become live again, contradicts u.
  ghost predicate Steady(d: Disk, u: bool) {
    forall s: Slot :: !s.New? && Path(Attr, s) in d ==> d[Path(Attr, s)] != UniqueFlag(!u)
  }

  predicate NewSteady(d: Disk, u: bool) {
    Path(Attr, New) in d ==> d[Path(Attr, New)] != UniqueFlag(!u)
  }

  // Renaming attribute files leaves steady ones steady.
  lemma AttrMoves(d: Disk, src: Slot, dst: Slot, e: Event, u: bool)
    requires Steady(d, u) && (src.New? ==> NewSteady(d, u))
    ensures Steady(Rename(d, Path(Attr, src), Path(Attr, dst), e).disk, u)
  {
    var r := Rename(d, Path(Attr, src), Path(Attr, dst), e);
    forall s: Slot | !s.New? && Path(Attr, s) in r.disk ensures r.disk[Path(Attr, s)] != UniqueFlag(!u) {
      assert Path(Attr, src) in d ==> d[Path(Attr, src)] != UniqueFlag(!u);
    }
  }

  // The index files right after the first half of the rotation.
  predicate Rotated(d: Disk, was: Content, now: Content) {
    LiveIs(d, Index, now) && Path(Index, Old) in d && d[Path(Index, Old)] == was
  }

  lemma RestoreIndexLive(r: Io, env: Env, b: nat, was: Content, now: Content)
    requires Rotated(r.disk, was, now) && r.status != Done
    ensures var s := RestoreIndex(r, env, b);
      s.status != Done && LiveAmong(s.disk, Index, was, now)
  {
  }

  lemma RotateAttrLive(d: Disk, env: Env, b: nat, was: Content, now: Content)
    requires Rotated(d, was, now)
    ensures var r := RotateAttr(d, env, b);
      && LiveAmong(r.disk, Index, was, now)
      && (r.status.Done? ==> LiveIs(r.disk, Index, now))
      && (r.status.Done? ==> Path(Attr, New) in d && LiveIs(r.disk, Attr, d[Path(Attr, New)]))
  {
    var s := SetAside(d, Attr, env(b));
    if s.status.Error? {
      RestoreIndexLive(s, env, b + 1, was, now);
    } else if s.status.Done? {
      var t := Rename(s.disk, Path(Attr, New), Path(Attr, Live), env(b + 3));
      if t.status.Error? {
        RestoreIndexLive(Undo(t, Path(Attr, Old), Path(Attr, Live), env(b + 4)), env, b + 5, was, now);
      }
    }
  }

  lemma RotateAttrSteady(d: Disk, env: Env, b: nat, u: bool)
    requires Steady(d, u) && NewSteady(d, u)
    ensures Steady(RotateAttr(d, env, b).disk, u)
  {
    AttrMoves(d, Live, Old, env(b), u);
    var s := SetAside(d, Attr, env(b));
    RestoreIndexKeeps(s, env, b + 1);
    if s.status.Done? {
      AttrMoves(s.disk, New, Live, env(b + 3), u);
      var t := Rename(s.disk, Path(Attr, New), Path(Attr, Live), env(b + 3));
      if t.status.Error? {
        AttrMoves(t.disk, Old, Live, env(b + 4), u);
        RestoreIndexKeeps(Undo(t, Path(Attr, Old), Path(Attr, Live), env(b + 4)), env, b + 5);
      }
    }
  }

  // The same for both files of the index: a rotation cut anywhere never loses
  // the database.
  lemma RotateIndexLive(d: Disk, env: Env, b: nat)
    requires Path(Index, Live) in d && Path(Index, New) in d
    ensures var r := RotateIndex(d, env, b);
      && LiveAmong(r.disk, Index, d[Path(Index, Live)], d[Path(Index, New)])
      && (r.status.Done? ==> LiveIs(r.disk, Index, d[Path(Index, New)]))
      && (r.status.Done? ==> Path(Attr, New) in d && LiveIs(r.disk, Attr, d[Path(Attr, New)]))
  {
    RotateOneLive(d, Index, env, b);
    RotateOneKeeps(d, Index, env, b);
    var r := RotateOne(d, Index, env, b);
    if r.status.Done? {
      RotateAttrLive(r.disk, env, b + 3, d[Path(Index, Live)], d[Path(Index, New)]);
    }
  }

  lemma RotateIndexSteady(d: Disk, env: Env, b: nat, u: bool)
    requires Steady(d, u) && NewSteady(d, u)
    ensures Steady(RotateIndex(d, env, b).disk, u)
  {
    RotateOneKeeps(d, Index, env, b);
    var r := RotateOne(d, Index, env, b);
    if r.status.Done? { RotateAttrSteady(r.disk, env, b + 3, u); }
  }

  // The calls after which rotate_index leaves no live attribute file: both index
  // files and the old attribute file have been renamed, and the new attribute
  // file has not, and the old one was not put back either.
  predicate Window(env: Env, b: nat) {
    && env(b).Works? && env(b + 1).Works? && env(b + 3).Works?
    && (env(b + 6).Stops? || (env(b + 6).Fails? && !env(b + 7).Works?))
  }

  lemma AttributeLost(d: Disk, env: Env, b: nat)
    requires Path(Index, Live) in d && Path(Index, New) in d && Path(Attr, Live) in d && Path(Attr, New) in d
    ensures var r := RotateIndex(d, env, b);
      && (Path(Attr, Live) !in r.disk <==> Window(env, b))
      && (Path(Attr, Live) in r.disk ==> r.disk[Path(Attr, Live)] in {d[Path(Attr, Live)], d[Path(Attr, New)]})
  {
    RotateOneLive(d, Index, env, b);
    RotateOneKeeps(d, Index, env, b);
    var r := RotateOne(d, Index, env, b);
    if r.status.Done? {
      AttributeHalf(r.disk, env, b + 3);
    }
  }

  // When both rotations are complete, what has been saved is live; otherwise a
  // live attribute file is the old one.
  lemma AttributeNew(d: Disk, env: Env, b: nat)
    requires Path(Index, Live) in d && Path(Index, New) in d && Path(Attr, Live) in d && Path(Attr, New) in d
    ensures var r := RotateIndex(d, env, b);
      && (r.status.Done? <==> env(b).Works? && env(b + 1).Works? && env(b + 3).Works? && env(b + 6).Works?)
      && (r.status.Done? ==> LiveIs(r.disk, Attr, d[Path(Attr, New)]))
      && (!r.status.Done? && Path(Attr, Live) in r.disk ==> r.disk[Path(Attr, Live)] == d[Path(Attr, Live)])
  {
    RotateOneLive(d, Index, env, b);
    RotateOneKeeps(d, Index, env, b);
    var r := RotateOne(d, Index, env, b);
    if r.status.Done? { NewHalf(r.disk, env, b + 3); }
  }

  lemma NewHalf(d: Disk, env: Env, b: nat)
    requires Path(Attr, Live) in d && Path(Attr, New) in d
    ensures var r := RotateAttr(d, env, b);
      && (r.status.Done? <==> env(b).Works? && env(b + 3).Works?)
      && (r.status.Done? ==> LiveIs(r.disk, Attr, d[Path(Attr, New)]))
      && (!r.status.Done? && Path(Attr, Live) in r.disk ==> r.disk[Path(Attr, Live)] == d[Path(Attr, Live)])
  {
    var s := SetAside(d, Attr, env(b));
    RestoreIndexKeeps(s, env, b + 1);
    if s.status.Done? {
      var t := Rename(s.disk, Path(Attr, New), Path(Attr, Live), env(b + 3));
      RestoreIndexKeeps(Undo(t, Path(Attr, Old), Path(Attr, Live), env(b + 4)), env, b + 5);
    }
  }

  lemma AttributeHalf(d: Disk, env: Env, b: nat)
    requires Path(Attr, Live) in d && Path(Attr, New) in d
    ensures var r := RotateAttr(d, env, b);
      && (Path(Attr, Live) !in r.disk <==>
            env(b).Works? && (env(b + 3).Stops? || (env(b + 3).Fails? && !env(b + 4).Works?)))
      && (Path(Attr, Live) in r.disk ==> r.disk[Path(Attr, Live)] in {d[Path(Attr, Live)], d[Path(Attr, New)]})
  {
    var s := SetAside(d, Attr, env(b));
    RestoreIndexKeeps(s, env, b + 1);
    if s.status.Done? {
      var t := Rename(s.disk, Path(Attr, New), Path(Attr, Live), env(b + 3));
      RestoreIndexKeeps(Undo(t, Path(Attr, Old), Path(Attr, Live), env(b + 4)), env, b + 5);
    }
  }

  // Saving changes no live file.
  lemma SaveIndexKeeps(d: Disk, rows: seq<Row>, u: bool, env: Env, b: nat)
    ensures var r := SaveIndex(d, rows, u, env, b);
      && SameBut(d, r.disk, {Index, Attr})
      && (forall p: Path :: !p.slot.New? ==> (p in r.disk <==> p in d) && (p in d ==> r.disk[p] == d[p]))
      && (Steady(d, u) ==> Steady(r.disk, u))
      && (r.status.Done? ==> NewIs(r.disk, Index, Stored(IndexText(SaveText(rows)), env(b))))
      && (r.status.Done? ==> NewIs(r.disk, Attr, Stored(UniqueFlag(u), env(b + 1))))
  {
  }

  // Replacing the database: whatever fails or stops, the live index is what it
  // was, what has been saved, or gone with the old version set aside; what has
  // been saved for certain on success.
  lemma ReplaceIndexLive(d: Disk, rows: seq<Row>, unique: bool, env: Env, b: nat)
    requires Path(Index, Live) in d
    ensures var r := ReplaceIndex(d, rows, unique, env, b);
      var now := Stored(IndexText(SaveText(rows)), env(b));
      && LiveAmong(r.disk, Index, d[Path(Index, Live)], now)
      && (r.status.Done? ==> LiveIs(r.disk, Index, now) && LiveIs(r.disk, Attr, Stored(UniqueFlag(unique), env(b + 1))))
  {
    SaveIndexKeeps(d, rows, unique, env, b);
    var s := SaveIndex(d, rows, unique, env, b);
    if s.status.Done? { RotateIndexLive(s.disk, env, b + 2); }
  }

  lemma ReplaceIndexSteady(d: Disk, rows: seq<Row>, u: bool, env: Env, b: nat)
    requires Steady(d, u) && FlagKept(u, env(b + 1))
    ensures Steady(ReplaceIndex(d, rows, u, env, b).disk, u)
  {
    SaveIndexKeeps(d, rows, u, env, b);
    var s := SaveIndex(d, rows, u, env, b);
    if s.status.Done? { RotateIndexSteady(s.disk, env, b + 2, u); }
  }

  // A save of the attributes that is reported as done has not turned the flag.
  predicate FlagKept(u: bool, e: Event) {
    Stored(UniqueFlag(u), e) != UniqueFlag(!u)
  }

  // ---------------------------------------------------- keeping files in order

  // The database: the live index, or the one that a rotation cut short has set
  // aside.
  function Standing(d: Disk): Option<Content> {
    if Path(Index, Live) in d then Some(d[Path(Index, Live)])
    else if Path(Index, Old) in d then Some(d[Path(Index, Old)])
    else None
  }

  // A judgement: may this index stand beside this counter?
  type Judge = (Content, Option<nat>) -> bool

  // There is a database and it is approved of; the attribute files do not
  // contradict what is configured.
  ghost predicate Orderly(d: Disk, u: bool, good: Judge) {
    Steady(d, u) && Standing(d).Some? && good(Standing(d).value, LiveNumber(d, Serial))
  }

  // The CRL number has no part in it.
  lemma NumberingOrderly(d: Disk, d': Disk, u: bool, good: Judge)
    requires Orderly(d, u, good) && SameBut(d, d', {CrlNumber})
    ensures Orderly(d', u, good) && LiveNumber(d', Serial) == LiveNumber(d, Serial)
    ensures Path(Index, Live) in d' <==> Path(Index, Live) in d
  {
  }

  lemma ReplaceOrderly(d: Disk, rows: seq<Row>, u: bool, env: Env, b: nat, good: Judge)
    requires Orderly(d, u, good) && Path(Index, Live) in d && FlagKept(u, env(b + 1))
    requires good(Stored(IndexText(SaveText(rows)), env(b)), LiveNumber(d, Serial))
    ensures Orderly(ReplaceIndex(d, rows, u, env, b).disk, u, good)
  {
    ReplaceIndexLive(d, rows, u, env, b);
    ReplaceIndexKeeps(d, rows, u, env, b);
    ReplaceIndexSteady(d, rows, u, env, b);
  }

  // Once the replacement is complete this is exact: a save that was lost does
  // no harm if and only if what it left would have been approved of.
  lemma ReplaceExactly(d: Disk, rows: seq<Row>, u: bool, env: Env, b: nat, good: Judge)
    requires Orderly(d, u, good) && Path(Index, Live) in d && ReplaceIndex(d, rows, u, env, b).status.Done?
    ensures Orderly(ReplaceIndex(d, rows, u, env, b).disk, u, good) <==>
      FlagKept(u, env(b + 1)) && good(Stored(IndexText(SaveText(rows)), env(b)), LiveNumber(d, Serial))
  {
    ReplaceIndexLive(d, rows, u, env, b);
    ReplaceIndexKeeps(d, rows, u, env, b);
    if FlagKept(u, env(b + 1)) { ReplaceIndexSteady(d, rows, u, env, b); }
  }

  // The heart of the protocol. The serial is put in place before the index: so
  // the old index may come to stand beside the new counter, but never the new
  // index beside the old one -- only the other three combinations, and a
  // missing counter, need to be approved of.
  lemma CommitOrderly(d: Disk, rows: seq<Row>, u: bool, serial: nat, named: bool, env: Env, b: nat, good: Judge)
    requires Orderly(d, u, good) && Path(Index, Live) in d && Path(Serial, Live) in d && FlagKept(u, env(b + 2))
    requires good(d[Path(Index, Live)], NumberOf(Stored(Number(serial), env(b)))) && good(d[Path(Index, Live)], None)
    requires good(Stored(IndexText(SaveText(rows)), env(b + 1)), NumberOf(Stored(Number(serial), env(b))))
    ensures Orderly(CommitFiles(d, rows, u, serial, named, env, b).disk, u, good)
  {
    var was := d[Path(Index, Live)];
    var r := Save(d, Path(Serial, New), Number(serial), env(b));
    assert SameBut(d, r.disk, {Serial}) && LiveNumber(r.disk, Serial) == LiveNumber(d, Serial);
    if r.status.Done? {
      SaveIndexKeeps(r.disk, rows, u, env, b + 1);
      var s := SaveIndex(r.disk, rows, u, env, b + 1);
      assert LiveNumber(s.disk, Serial) == LiveNumber(d, Serial) && LiveIs(s.disk, Index, was);
      if s.status.Done? && named && env(b + 3).Works? {
        CommitRotations(s.disk, was, Stored(IndexText(SaveText(rows)), env(b + 1)), u,
          Stored(Number(serial), env(b)), env, b, good);
      }
    }
  }

  // A complete commit is judged by what its three saves left.
  lemma CommitExactly(d: Disk, rows: seq<Row>, u: bool, serial: nat, named: bool, env: Env, b: nat, good: Judge)
    requires Orderly(d, u, good) && Path(Index, Live) in d && Path(Serial, Live) in d
    requires CommitFiles(d, rows, u, serial, named, env, b).status.Done?
    ensures Orderly(CommitFiles(d, rows, u, serial, named, env, b).disk, u, good) <==>
      && FlagKept(u, env(b + 2))
      && good(Stored(IndexText(SaveText(rows)), env(b + 1)), NumberOf(Stored(Number(serial), env(b))))
  {
    CommitCounts(d, rows, u, serial, named, env, b);
    if FlagKept(u, env(b + 2)) { CommitSteady(d, rows, u, serial, named, env, b); }
  }

  lemma CommitSteady(d: Disk, rows: seq<Row>, u: bool, serial: nat, named: bool, env: Env, b: nat)
    requires Steady(d, u) && FlagKept(u, env(b + 2))
    ensures Steady(CommitFiles(d, rows, u, serial, named, env, b).disk, u)
  {
    var r := Save(d, Path(Serial, New), Number(serial), env(b));
    if r.status.Done? {
      SaveIndexKeeps(r.disk, rows, u, env, b + 1);
      var s := SaveIndex(r.disk, rows, u, env, b + 1);
      RotateOneKeeps(s.disk, Serial, env, b + 4);
      var t := RotateOne(s.disk, Serial, env, b + 4);
      if s.status.Done? && t.status.Done? { RotateIndexSteady(t.disk, env, b + 7, u); }
    }
  }

  lemma CommitRotations(d: Disk, was: Content, now: Content, u: bool, number: Content, env: Env, b: nat, good: Judge)
    requires Steady(d, u) && NewSteady(d, u) && Path(Serial, Live) in d && NewIs(d, Serial, number)
    requires LiveIs(d, Index, was) && NewIs(d, Index, now)
    requires good(was, LiveNumber(d, Serial)) && good(was, NumberOf(number)) && good(was, None)
    requires good(now, NumberOf(number))
    ensures var t := RotateOne(d, Serial, env, b + 4);
      Orderly((if t.status.Done? then RotateIndex(t.disk, env, b + 7) else t).disk, u, good)
  {
    RotateOneLive(d, Serial, env, b + 4);
    RotateOneKeeps(d, Serial, env, b + 4);
    var t := RotateOne(d, Serial, env, b + 4);
    if t.status.Done? {
      RotateIndexLive(t.disk, env, b + 7);
      RotateIndexKeeps(t.disk, env, b + 7);
      RotateIndexSteady(t.disk, env, b + 7, u);
      assert LiveNumber(RotateIndex(t.disk, env, b + 7).disk, Serial) == NumberOf(number);
    }
  }

  // What a commit does to the counter and to the live files, whatever is in them.
  lemma CommitCounts(d: Disk, rows: seq<Row>, u: bool, serial: nat, named: bool, env: Env, b: nat)
    requires Path(Serial, Live) in d
    ensures var r := CommitFiles(d, rows, u, serial, named, env, b);
      && SameBut(d, r.disk, {Index, Attr, Serial})
      && LiveNumber(r.disk, Serial) in {None, LiveNumber(d, Serial), NumberOf(Stored(Number(serial), env(b)))}
      && (r.status.Done? ==> LiveIs(r.disk, Serial, Stored(Number(serial), env(b))))
      && (r.status.Done? && Path(Index, Live) in d ==>
            && LiveIs(r.disk, Index, Stored(IndexText(SaveText(rows)), env(b + 1)))
            && LiveIs(r.disk, Attr, Stored(UniqueFlag(u), env(b + 2))))
  {
    var r := Save(d, Path(Serial, New), Number(serial), env(b));
    assert SameBut(d, r.disk, {Index, Attr, Serial});
    if r.status.Done? {
      SaveIndexKeeps(r.disk, rows, u, env, b + 1);
      var s := SaveIndex(r.disk, rows, u, env, b + 1);
      assert NewIs(s.disk, Serial, Stored(Number(serial), env(b)));
      assert d[Path(Serial, Live)] == s.disk[Path(Serial, Live)];
      if s.status.Done? && named && env(b + 3).Works? {
        CountRotations(s.disk, env, b);
      }
    }
  }

  lemma CommitKeepsCrlNumber(d: Disk, rows: seq<Row>, u: bool, serial: nat, named: bool, env: Env, b: nat)
    requires Path(Serial, Live) in d
    ensures LiveNumber(CommitFiles(d, rows, u, serial, named, env, b).disk, CrlNumber) == LiveNumber(d, CrlNumber)
  {
    CommitCounts(d, rows, u, serial, named, env, b);
    NumberUntouched(d, CommitFiles(d, rows, u, serial, named, env, b).disk);
  }

  lemma NumberUntouched(d: Disk, d': Disk)
    requires SameBut(d, d', {Index, Attr, Serial})
    ensures LiveNumber(d', CrlNumber) == LiveNumber(d, CrlNumber)
  {
  }

  lemma CountRotations(d: Disk, env: Env, b: nat)
    requires Path(Serial, Live) in d && Path(Serial, New) in d && Path(Index, New) in d && Path(Attr, New) in d
    ensures var t := RotateOne(d, Serial, env, b + 4);
      var r := if t.status.Done? then RotateIndex(t.disk, env, b + 7) else t;
      && SameBut(d, r.disk, {Index, Attr, Serial})
      && LiveNumber(r.disk, Serial) in {None, LiveNumber(d, Serial), NumberOf(d[Path(Serial, New)])}
      && (r.status.Done? ==> LiveIs(r.disk, Serial, d[Path(Serial, New)]))
      && (r.status.Done? && Path(Index, Live) in d ==> LiveIs(r.disk, Index, d[Path(Index, New)]))
      && (r.status.Done? && Path(Index, Live) in d ==> LiveIs(r.disk, Attr, d[Path(Attr, New)]))
  {
    RotateOneLive(d, Serial, env, b + 4);
    RotateOneKeeps(d, Serial, env, b + 4);
    var t := RotateOne(d, Serial, env, b + 4);
    if t.status.Done? {
      RotateIndexKeeps(t.disk, env, b + 7);
      if Path(Index, Live) in d { RotateIndexLive(t.disk, env, b + 7); }
    }
  }

  // The CRL number moves to the next one or not at all, or is gone and set
  // aside; it is in place when the section completes. No other file is touched.
  lemma NumberFilesLive(d: Disk, next: nat, env: Env, b: nat)
    requires Path(CrlNumber, Live) in d
    ensures var r := NumberFiles(d, next, env, b);
      && SameBut(d, r.disk, {CrlNumber})
      && LiveAmong(r.disk, CrlNumber, d[Path(CrlNumber, Live)], Stored(Number(next), env(b)))
      && (r.status.Done? ==> LiveIs(r.disk, CrlNumber, Stored(Number(next), env(b))))
  {
    var r := Save(d, Path(CrlNumber, New), Number(next), env(b));
    assert SameBut(d, r.disk, {CrlNumber}) && LiveIs(r.disk, CrlNumber, d[Path(CrlNumber, Live)]);
    RotateOneLive(r.disk, CrlNumber, env, b + 2);
    RotateOneKeeps(r.disk, CrlNumber, env, b + 2);
  }
}
