/** The file delivery table: entries of a received instance complement the table, they never
    change what is there. */
module Fdt {
  import opened Options

  /** The description of a file; 0, -1 and None mean that a field is absent. */
  datatype FileInfo = FileInfo(toi: nat, expires: nat, transferLen: nat, contentLen: nat, fecEncId: int, fecInstId: int,
                               maxSbLen: nat, esLen: nat, maxNbOfEs: nat, location: Option<string>,
                               mimeType: Option<string>, md5: Option<string>, encoding: Option<string>)

  /** A fresh table entry. */
  const BLANK := FileInfo(0, 0, 0, 0, -1, -1, 0, 0, 0, None, None, None, None)

  function Num(src: nat, dest: nat): nat { if dest == 0 then src else dest }

  function Id(src: int, dest: int): int { if dest == -1 then src else dest }

  function Str(src: Option<string>, dest: Option<string>): Option<string> { if dest.None? then src else dest }

  /** Every field that dest lacks is taken from src. */
  function Merge(src: FileInfo, dest: FileInfo): FileInfo {
    FileInfo(Num(src.toi, dest.toi), Num(src.expires, dest.expires), Num(src.transferLen, dest.transferLen),
             Num(src.contentLen, dest.contentLen), Id(src.fecEncId, dest.fecEncId), Id(src.fecInstId, dest.fecInstId),
             Num(src.maxSbLen, dest.maxSbLen), Num(src.esLen, dest.esLen), Num(src.maxNbOfEs, dest.maxNbOfEs),
             Str(src.location, dest.location), Str(src.mimeType, dest.mimeType), Str(src.md5, dest.md5),
             Str(src.encoding, dest.encoding))
  }

  /** b has every field that a has, with the same value. */
  ghost predicate Keeps(a: FileInfo, b: FileInfo) {
    && (a.toi != 0 ==> b.toi == a.toi) && (a.expires != 0 ==> b.expires == a.expires)
    && (a.transferLen != 0 ==> b.transferLen == a.transferLen) && (a.contentLen != 0 ==> b.contentLen == a.contentLen)
    && (a.fecEncId != -1 ==> b.fecEncId == a.fecEncId) && (a.fecInstId != -1 ==> b.fecInstId == a.fecInstId)
    && (a.maxSbLen != 0 ==> b.maxSbLen == a.maxSbLen) && (a.esLen != 0 ==> b.esLen == a.esLen)
    && (a.maxNbOfEs != 0 ==> b.maxNbOfEs == a.maxNbOfEs) && (a.location.Some? ==> b.location == a.location)
    && (a.mimeType.Some? ==> b.mimeType == a.mimeType) && (a.md5.Some? ==> b.md5 == a.md5)
    && (a.encoding.Some? ==> b.encoding == a.encoding)
  }

  /** Every field that was lacked, now has from src. */
  ghost predicate Fills(src: FileInfo, was: FileInfo, now: FileInfo) {
    && (was.toi == 0 ==> now.toi == src.toi) && (was.expires == 0 ==> now.expires == src.expires)
    && (was.transferLen == 0 ==> now.transferLen == src.transferLen) && (was.contentLen == 0 ==> now.contentLen == src.contentLen)
    && (was.fecEncId == -1 ==> now.fecEncId == src.fecEncId) && (was.fecInstId == -1 ==> now.fecInstId == src.fecInstId)
    && (was.maxSbLen == 0 ==> now.maxSbLen == src.maxSbLen) && (was.esLen == 0 ==> now.esLen == src.esLen)
    && (was.maxNbOfEs == 0 ==> now.maxNbOfEs == src.maxNbOfEs) && (was.location.None? ==> now.location == src.location)
    && (was.mimeType.None? ==> now.mimeType == src.mimeType) && (was.md5.None? ==> now.md5 == src.md5)
    && (was.encoding.None? ==> now.encoding == src.encoding)
  }

  lemma MergeFills(src: FileInfo, dest: FileInfo)
    ensures Keeps(dest, Merge(src, dest)) && Fills(src, dest, Merge(src, dest))
  {}

  /** A file entry in the table. */
  class File {
    var prev: File?
    var next: File?
    var toi: nat
    var expires: nat
    var transferLen: nat
    var contentLen: nat
    var fecEncId: int
    var fecInstId: int
    var maxSbLen: nat
    var esLen: nat
    var maxNbOfEs: nat
    var location: Option<string>
    var mimeType: Option<string>
    var md5: Option<string>
    var encoding: Option<string>

    constructor ()
      ensures prev == null && next == null && Info() == BLANK
    {
      prev, next := null, null;
      toi, expires, transferLen, contentLen, fecEncId, fecInstId := 0, 0, 0, 0, -1, -1;
      maxSbLen, esLen, maxNbOfEs := 0, 0, 0;
      location, mimeType, md5, encoding := None, None, None, None;
    }

    function Info(): FileInfo
      reads this
    {
      FileInfo(toi, expires, transferLen, contentLen, fecEncId, fecInstId, maxSbLen, esLen, maxNbOfEs, location,
               mimeType, md5, encoding)
    }
  }

  /** The numeric fields. */
  method CopyNumbers(src: File, dest: File) returns (updated: bool)
    requires src != dest
    modifies dest`toi, dest`expires, dest`transferLen, dest`contentLen
    ensures dest.toi == Num(src.toi, old(dest.toi)) && dest.expires == Num(src.expires, old(dest.expires))
    ensures dest.transferLen == Num(src.transferLen, old(dest.transferLen))
    ensures dest.contentLen == Num(src.contentLen, old(dest.contentLen))
    ensures updated <==> dest.Info() != old(dest.Info())
  {
    updated := false;
    if src.toi != 0 {
      if dest.toi == 0 {
        dest.toi := src.toi;
        updated := true;
      }
    }
    if src.expires != 0 {
      if dest.expires == 0 {
        dest.expires := src.expires;
        updated := true;
      }
    }
    if src.transferLen != 0 {
      if dest.transferLen == 0 {
        dest.transferLen := src.transferLen;
        updated := true;
      }
    }
    if src.contentLen != 0 {
      if dest.contentLen == 0 {
        dest.contentLen := src.contentLen;
        updated := true;
      }
    }
  }

  /** The FEC scheme. */
  method CopyIds(src: File, dest: File) returns (updated: bool)
    requires src != dest
    modifies dest`fecEncId, dest`fecInstId
    ensures dest.fecEncId == Id(src.fecEncId, old(dest.fecEncId)) && dest.fecInstId == Id(src.fecInstId, old(dest.fecInstId))
    ensures updated <==> dest.Info() != old(dest.Info())
  {
    updated := false;
    if src.fecEncId != -1 {
      if dest.fecEncId == -1 {
        dest.fecEncId := src.fecEncId;
        updated := true;
      }
    }
    if src.fecInstId != -1 {
      if dest.fecInstId == -1 {
        dest.fecInstId := src.fecInstId;
        updated := true;
      }
    }
  }

  /** The FEC parameters. */
  method CopyOti(src: File, dest: File) returns (updated: bool)
    requires src != dest
    modifies dest`maxSbLen, dest`esLen, dest`maxNbOfEs
    ensures dest.maxSbLen == Num(src.maxSbLen, old(dest.maxSbLen)) && dest.esLen == Num(src.esLen, old(dest.esLen))
    ensures dest.maxNbOfEs == Num(src.maxNbOfEs, old(dest.maxNbOfEs))
    ensures updated <==> dest.Info() != old(dest.Info())
  {
    updated := false;
    if src.maxSbLen != 0 {
      if dest.maxSbLen == 0 {
        dest.maxSbLen := src.maxSbLen;
        updated := true;
      }
    }
    if src.esLen != 0 {
      if dest.esLen == 0 {
        dest.esLen := src.esLen;
        updated := true;
      }
    }
    if src.maxNbOfEs != 0 {
      if dest.maxNbOfEs == 0 {
        dest.maxNbOfEs := src.maxNbOfEs;
        updated := true;
      }
    }
  }

  /** The strings. */
  method CopyStrings(src: File, dest: File) returns (updated: bool)
    requires src != dest
    modifies dest`location, dest`mimeType, dest`md5, dest`encoding
    ensures dest.location == Str(src.location, old(dest.location)) && dest.mimeType == Str(src.mimeType, old(dest.mimeType))
    ensures dest.md5 == Str(src.md5, old(dest.md5)) && dest.encoding == Str(src.encoding, old(dest.encoding))
    ensures updated <==> dest.Info() != old(dest.Info())
  {
    updated := false;
    if src.location.Some? {
      if dest.location.None? {
        dest.location := src.location;
        updated := true;
      }
    }
    if src.mimeType.Some? {
      if dest.mimeType.None? {
        dest.mimeType := src.mimeType;
        updated := true;
      }
    }
    if src.md5.Some? {
      if dest.md5.None? {
        dest.md5 := src.md5;
        updated := true;
      }
    }
    if src.encoding.Some? {
      if dest.encoding.None? {
        dest.encoding := src.encoding;
        updated := true;
      }
    }
  }

  /** copy_file_info: 1 if the destination has changed. */
  method CopyFileInfo(src: File, dest: File) returns (updated: int)
    requires src != dest
    modifies dest
    ensures dest.Info() == Merge(src.Info(), old(dest.Info()))
    ensures Keeps(old(dest.Info()), dest.Info()) && Fills(src.Info(), old(dest.Info()), dest.Info())
    ensures dest.prev == old(dest.prev) && dest.next == old(dest.next)
    ensures updated == if dest.Info() != old(dest.Info()) then 1 else 0
  {
    hide Keeps, Fills;
    var a := CopyNumbers(src, dest);
    var b := CopyIds(src, dest);
    var c := CopyOti(src, dest);
    var d := CopyStrings(src, dest);
    MergeFills(src.Info(), old(dest.Info()));
    updated := if a || b || c || d then 1 else 0;
  }

  // ----- the list of files

  ghost function Neighbour(files: seq<File>, i: int): File? {
    if 0 <= i < |files| then files[i] else null
  }

  ghost predicate Linked(files: seq<File>)
    reads files
  {
    && (forall i {:trigger files[i].prev} :: 0 <= i < |files| ==> files[i].prev == Neighbour(files, i - 1))
    && (forall i {:trigger files[i].next} :: 0 <= i < |files| ==> files[i].next == Neighbour(files, i + 1))
    && forall i, j :: 0 <= i < j < |files| ==> files[i] != files[j]
  }

  ghost function InfosOf(files: seq<File>): (r: seq<FileInfo>)
    reads files
    ensures |r| == |files|
  {
    seq(|files|, i requires 0 <= i < |files| reads files => files[i].Info())
  }

  class FdtDb {
    var fileList: File?
    var nbOfFiles: int
    ghost var files: seq<File>

    ghost predicate Valid()
      reads this, files
    {
      fileList == Neighbour(files, 0) && nbOfFiles == |files| && Linked(files)
    }

    ghost function Infos(): (r: seq<FileInfo>)
      reads this, files
    {
      InfosOf(files)
    }
  }

  /** Position of the first entry with this TOI, or the number of entries. */
  ghost function FindToi(db: seq<FileInfo>, toi: nat): (p: nat)
    ensures p <= |db| && (p < |db| ==> db[p].toi == toi) && forall i :: 0 <= i < p ==> db[i].toi != toi
  {
    if db == [] || db[0].toi == toi then 0
    else
      assert forall i :: 1 <= i < |db| ==> db[i] == db[1..][i - 1];
      1 + FindToi(db[1..], toi)
  }

  /** One entry of an instance: it complements the entry with its TOI or becomes a new one. */
  ghost function Update(db: seq<FileInfo>, f: FileInfo): (r: seq<FileInfo>)
    ensures |db| <= |r| <= |db| + 1
  {
    var p := FindToi(db, f.toi);
    if p < |db| then db[p := Merge(f, db[p])] else db + [Merge(f, BLANK)]
  }

  /** The return code after one more entry. */
  ghost function Code(updated: int, db: seq<FileInfo>, f: FileInfo): int {
    var p := FindToi(db, f.toi);
    if p < |db| then (if Merge(f, db[p]) != db[p] && updated != 2 then 1 else updated)
    else if Merge(f, BLANK) != BLANK then 2 else updated
  }

  ghost function UpdateAll(db: seq<FileInfo>, inst: seq<FileInfo>): (r: seq<FileInfo>)
    ensures |r| >= |db|
  {
    if inst == [] then db else Update(UpdateAll(db, inst[..|inst| - 1]), inst[|inst| - 1])
  }

  ghost function CodeAll(db: seq<FileInfo>, inst: seq<FileInfo>): int {
    if inst == [] then 0
    else Code(CodeAll(db, inst[..|inst| - 1]), UpdateAll(db, inst[..|inst| - 1]), inst[|inst| - 1])
  }

  lemma {:induction false} FindToiAt(db: seq<FileInfo>, toi: nat, p: nat)
    requires p <= |db| && (p < |db| ==> db[p].toi == toi) && forall i :: 0 <= i < p ==> db[i].toi != toi
    ensures FindToi(db, toi) == p
  {
    if p > 0 {
      FindToiAt(db[1..], toi, p - 1);
    }
  }

  /** find_file_with_toi. */
  method FindFileWithToi(fdt: FdtDb, toi: nat) returns (file: File?)
    requires fdt.Valid()
    ensures file == Neighbour(fdt.files, FindToi(fdt.Infos(), toi))
  {
    file := fdt.fileList;
    ghost var i := 0;
    while file != null
      invariant i <= |fdt.files| && file == Neighbour(fdt.files, i)
      invariant forall j :: 0 <= j < i ==> fdt.Infos()[j].toi != toi
      decreases |fdt.files| - i
    {
      assert fdt.Infos()[i] == file.Info();
      if file.toi == toi {
        FindToiAt(fdt.Infos(), toi, i);
        return;
      }
      file := file.next;
      i := i + 1;
    }
    FindToiAt(fdt.Infos(), toi, i);
  }

  /** A new entry with the description of a file. */
  method NewFile(tmpFile: File) returns (newFile: File, retval: int)
    ensures fresh(newFile) && newFile.Info() == Merge(tmpFile.Info(), BLANK) && newFile.prev == newFile.next == null
    ensures retval == if newFile.Info() != BLANK then 1 else 0
  {
    hide Merge;
    newFile := new File();
    retval := CopyFileInfo(tmpFile, newFile);
  }

  lemma LinkedAppended(files: seq<File>, f: File)
    requires files != [] && f !in files && f.prev == files[|files| - 1] && f.next == null
    requires forall i {:trigger files[i].prev} :: 0 <= i < |files| ==> files[i].prev == Neighbour(files, i - 1)
    requires forall i {:trigger files[i].next} :: 0 <= i < |files| ==>
               files[i].next == if i == |files| - 1 then f else Neighbour(files, i + 1)
    requires forall i, j :: 0 <= i < j < |files| ==> files[i] != files[j]
    ensures Linked(files + [f])
  {
    var r := files + [f];
    forall i | 0 <= i < |r| ensures r[i].prev == Neighbour(r, i - 1) && r[i].next == Neighbour(r, i + 1) {
      assert i > 0 ==> r[i - 1] == files[i - 1];
      assert i + 1 < |files| ==> r[i + 1] == files[i + 1];
    }
  }

  /** Relink the end of the list. */
  method Append(newFile: File, fdtFile: File, ghost files: seq<File>)
    requires files != [] && Linked(files) && fdtFile == files[|files| - 1] && newFile !in files
    modifies newFile`next, newFile`prev, fdtFile`next
    ensures Linked(files + [newFile]) && InfosOf(files) == old(InfosOf(files))
  {
    newFile.next := fdtFile.next;
    newFile.prev := fdtFile;
    fdtFile.next := newFile;
    LinkedAppended(files, newFile);
  }

  /** Add an entry behind the last one. */
  method AddFile(db: FdtDb, tmpFile: File, fdtFile: File) returns (retval: int)
    requires db.Valid() && db.files != [] && tmpFile !in db.files && fdtFile == db.files[|db.files| - 1]
    modifies db`nbOfFiles, db`files, fdtFile
    ensures db.Valid() && db.files != [] && forall i :: 0 <= i < |db.files| ==> db.files[i] in old(db.files) || fresh(db.files[i])
    ensures retval == if Merge(tmpFile.Info(), BLANK) != BLANK then 1 else 0
    ensures db.Infos() == old(db.Infos()) + [Merge(tmpFile.Info(), BLANK)]
  {
    hide Merge, Linked, InfosOf;
    ghost var files := db.files;
    var newFile;
    newFile, retval := NewFile(tmpFile);
    ghost var info := newFile.Info();
    assert InfosOf(files) == old(db.Infos());
    db.nbOfFiles := db.nbOfFiles + 1;
    Append(newFile, fdtFile, files);
    assert newFile.Info() == info;
    InfosAppended(files, newFile);
    db.files := files + [newFile];
  }

  lemma InfosAppended(files: seq<File>, f: File)
    ensures InfosOf(files + [f]) == InfosOf(files) + [f.Info()]
  {}

  /** Complement an entry of the table. */
  method Complement(db: FdtDb, tmpFile: File, fdtFile: File, ghost i: nat) returns (retval: int)
    requires db.Valid() && i < |db.files| && tmpFile !in db.files && fdtFile == db.files[i]
    modifies fdtFile
    ensures db.Valid() && retval == if Merge(tmpFile.Info(), old(db.Infos()[i])) != old(db.Infos()[i]) then 1 else 0
    ensures db.Infos() == old(db.Infos())[i := Merge(tmpFile.Info(), old(db.Infos()[i]))]
  {
    hide Merge;
    ghost var was := db.Infos();
    retval := CopyFileInfo(tmpFile, fdtFile);
    forall j | 0 <= j < |db.files| && j != i ensures db.Infos()[j] == was[j] {
      assert db.files[j] != fdtFile;
    }
  }

  /** The search for one file of the instance, and what is done at its end. */
  method UpdateFile(db: FdtDb, tmpFile: File, before: int) returns (updated: int)
    requires db.Valid() && db.files != [] && tmpFile !in db.files
    modifies db`nbOfFiles, db`files, db.files
    ensures db.Valid() && db.Infos() == Update(old(db.Infos()), tmpFile.Info())
    ensures updated == Code(before, old(db.Infos()), tmpFile.Info())
    ensures db.files != [] && forall i :: 0 <= i < |db.files| ==> db.files[i] in old(db.files) || fresh(db.files[i])
  {
    hide Merge;
    updated := before;
    var fdtFile := db.fileList;
    ghost var i := 0;
    while true
      invariant i < |db.files| && fdtFile == db.files[i]
      invariant forall j :: 0 <= j < i ==> db.Infos()[j].toi != tmpFile.toi
      decreases |db.files| - i
    {
      assert db.Infos()[i] == fdtFile.Info();
      if tmpFile.toi == fdtFile.toi {
        FindToiAt(db.Infos(), tmpFile.toi, i);
        var retval := Complement(db, tmpFile, fdtFile, i);
        if retval == 1 && updated != 2 {
          updated := 1;
        }
        return;
      } else if fdtFile.next != null {
        fdtFile := fdtFile.next;
        i := i + 1;
      } else {
        FindToiAt(db.Infos(), tmpFile.toi, i + 1);
        var retval := AddFile(db, tmpFile, fdtFile);
        if retval == 1 {
          updated := 2;
        }
        return;
      }
    }
  }

  /** update_fdt: 2 if there are new files, 1 if descriptions have been complemented. */
  method UpdateFdt(db: FdtDb, instance: FdtDb) returns (updated: int)
    requires db.Valid() && instance.Valid() && db.files != [] && db != instance
    requires forall i :: 0 <= i < |instance.files| ==> instance.files[i] !in db.files
    modifies db`nbOfFiles, db`files, db.files
    ensures db.Valid() && db.Infos() == UpdateAll(old(db.Infos()), instance.Infos())
    ensures updated == CodeAll(old(db.Infos()), instance.Infos())
    ensures instance.Valid() && instance.Infos() == old(instance.Infos())
  {
    hide Merge, Update, Code;
    updated := 0;
    var tmpFile := instance.fileList;
    ghost var i, was, given := 0, db.Infos(), instance.Infos();
    while tmpFile != null
      invariant i <= |given| == |instance.files| && tmpFile == Neighbour(instance.files, i)
      invariant db.Valid() && db.files != [] && db.Infos() == UpdateAll(was, given[..i])
      invariant updated == CodeAll(was, given[..i])
      invariant forall j :: 0 <= j < |db.files| ==> db.files[j] in old(db.files) || fresh(db.files[j])
      invariant instance.Valid() && instance.Infos() == given
      decreases |given| - i
    {
      assert given[..i + 1][..i] == given[..i];
      updated := UpdateFile(db, tmpFile, updated);
      tmpFile := tmpFile.next;
      i := i + 1;
    }
    assert given[..i] == given;
  }

  // ----- what an update means

  ghost function Tois(db: seq<FileInfo>): set<nat> {
    set i | 0 <= i < |db| :: db[i].toi
  }

  ghost predicate UniqueTois(db: seq<FileInfo>) {
    forall i, j :: 0 <= i < j < |db| ==> db[i].toi != db[j].toi
  }

  /** Every entry of a is still there, with all its fields. */
  ghost predicate Grows(a: seq<FileInfo>, b: seq<FileInfo>) {
    |a| <= |b| && forall i :: 0 <= i < |a| ==> Keeps(a[i], b[i]) && a[i].toi == b[i].toi
  }

  lemma MergeKeeps(f: FileInfo, a: FileInfo)
    ensures Keeps(a, Merge(f, a)) && Merge(f, Merge(f, a)) == Merge(f, a) && Merge(f, BLANK) == f
    ensures f.toi == a.toi ==> Merge(f, a).toi == a.toi
  {}

  lemma KeepsOrder(a: FileInfo, b: FileInfo, c: FileInfo)
    ensures Keeps(a, a) && (Keeps(a, b) && Keeps(b, c) ==> Keeps(a, c))
    ensures Keeps(a, b) && Keeps(b, a) ==> a == b
    ensures Merge(a, b) == b && Keeps(b, c) ==> Merge(a, c) == c
  {}

  lemma GrowsOrder(a: seq<FileInfo>, b: seq<FileInfo>, c: seq<FileInfo>)
    ensures Grows(a, a) && (Grows(a, b) && Grows(b, c) ==> Grows(a, c))
    ensures Grows(a, b) && Grows(b, a) ==> a == b
  {
    hide Keeps;
    forall i | 0 <= i < |a| ensures Keeps(a[i], a[i]) {
      KeepsOrder(a[i], a[i], a[i]);
    }
    if Grows(a, b) && Grows(b, c) {
      forall i | 0 <= i < |a| ensures Keeps(a[i], c[i]) {
        KeepsOrder(a[i], b[i], c[i]);
      }
    }
    if Grows(a, b) && Grows(b, a) {
      forall i | 0 <= i < |a| ensures a[i] == b[i] {
        KeepsOrder(a[i], b[i], b[i]);
      }
    }
  }

  lemma FindsToi(db: seq<FileInfo>, toi: nat)
    ensures FindToi(db, toi) < |db| <==> toi in Tois(db)
  {
    var p := FindToi(db, toi);
    assert p < |db| ==> db[p].toi in Tois(db);
  }

  /** One file: the entries grow, no TOI is lost or doubled, and exactly a new TOI makes the
      table longer. */
  lemma UpdateFacts(db: seq<FileInfo>, f: FileInfo)
    ensures Grows(db, Update(db, f)) && Tois(Update(db, f)) == Tois(db) + {f.toi}
    ensures UniqueTois(db) ==> UniqueTois(Update(db, f))
    ensures |Update(db, f)| == |db| + if f.toi in Tois(db) then 0 else 1
  {
    var p, r := FindToi(db, f.toi), Update(db, f);
    FindsToi(db, f.toi);
    MergeKeeps(f, if p < |db| then db[p] else BLANK);
    forall i | 0 <= i < |db| ensures Keeps(db[i], r[i]) && db[i].toi == r[i].toi {
      KeepsOrder(db[i], db[i], db[i]);
    }
    hide Merge, Keeps, FindToi;
    SameTois(db, r, f.toi);
  }

  lemma SameTois(db: seq<FileInfo>, r: seq<FileInfo>, toi: nat)
    requires |db| <= |r| <= |db| + 1 && forall i :: 0 <= i < |db| ==> db[i].toi == r[i].toi
    requires if |r| == |db| then toi in Tois(db) else r[|db|].toi == toi
    ensures Tois(r) == Tois(db) + {toi}
  {
    forall x ensures x in Tois(r) <==> x in Tois(db) + {toi} {
      if x in Tois(r) {
        var i :| 0 <= i < |r| && r[i].toi == x;
        assert i < |db| ==> db[i].toi in Tois(db);
      }
      if x in Tois(db) {
        var i :| 0 <= i < |db| && db[i].toi == x;
        assert r[i].toi in Tois(r);
      }
      if x == toi && |r| > |db| {
        assert r[|db|].toi in Tois(r);
      }
    }
  }

  /** A whole instance: the table keeps every field it has, its TOIs stay unique and become
      the union, and the number of files grows by the number of new TOIs. */
  lemma {:induction false} UpdateAllFacts(db: seq<FileInfo>, inst: seq<FileInfo>)
    ensures Grows(db, UpdateAll(db, inst)) && Tois(UpdateAll(db, inst)) == Tois(db) + Tois(inst)
    ensures UniqueTois(db) ==> UniqueTois(UpdateAll(db, inst))
    ensures |UpdateAll(db, inst)| == |db| + |Tois(inst) - Tois(db)|
  {
    if inst == [] {
      GrowsOrder(db, db, db);
    } else {
      var n := |inst| - 1;
      var x, f := UpdateAll(db, inst[..n]), inst[n];
      UpdateAllFacts(db, inst[..n]);
      UpdateFacts(x, f);
      GrowsOrder(db, x, Update(x, f));
      TwoTois(inst, n);
      NewTois(Tois(db), Tois(inst[..n]), f.toi);
      hide Grows, Update, Tois, UniqueTois;
    }
  }

  lemma NewTois(a: set<nat>, b: set<nat>, t: nat)
    ensures |(b + {t}) - a| == |b - a| + if t in a + b then 0 else 1
    ensures a + (b + {t}) == (a + b) + {t}
  {
    assert (b + {t}) - a == if t in a + b then b - a else (b - a) + {t};
  }

  lemma TwoTois(inst: seq<FileInfo>, n: nat)
    requires n + 1 == |inst|
    ensures Tois(inst) == Tois(inst[..n]) + {inst[n].toi}
  {
    SameTois(inst[..n], inst, inst[n].toi);
  }

  // ----- where a field comes from

  datatype Field = Toi | Expires | TransferLen | ContentLen | FecEncId | FecInstId | MaxSbLen | EsLen | MaxNbOfEs
    | Location | MimeType | Md5 | Encoding

  datatype Value = Number(n: int) | Text(s: string)

  function NumberUnless(n: int, absent: int): Option<Value> { if n == absent then None else Some(Number(n)) }

  function TextOf(s: Option<string>): Option<Value> { if s.None? then None else Some(Text(s.value)) }

  /** A field of a description, if it is present. */
  function Get(a: FileInfo, f: Field): Option<Value> {
    match f
    case Toi => NumberUnless(a.toi, 0)
    case Expires => NumberUnless(a.expires, 0)
    case TransferLen => NumberUnless(a.transferLen, 0)
    case ContentLen => NumberUnless(a.contentLen, 0)
    case FecEncId => NumberUnless(a.fecEncId, -1)
    case FecInstId => NumberUnless(a.fecInstId, -1)
    case MaxSbLen => NumberUnless(a.maxSbLen, 0)
    case EsLen => NumberUnless(a.esLen, 0)
    case MaxNbOfEs => NumberUnless(a.maxNbOfEs, 0)
    case Location => TextOf(a.location)
    case MimeType => TextOf(a.mimeType)
    case Md5 => TextOf(a.md5)
    case Encoding => TextOf(a.encoding)
  }

  lemma GetMerge(src: FileInfo, dest: FileInfo, f: Field)
    ensures Get(Merge(src, dest), f) == if Get(dest, f).Some? then Get(dest, f) else Get(src, f)
    ensures Get(BLANK, f).None?
  {}

  /** The field in the first description of the instance that has this TOI and the field. */
  ghost function FirstValue(inst: seq<FileInfo>, toi: nat, f: Field): Option<Value> {
    if inst == [] then None
    else
      var n := |inst| - 1;
      var v := FirstValue(inst[..n], toi, f);
      if v.Some? then v else if inst[n].toi == toi then Get(inst[n], f) else None
  }

  lemma {:induction false} FirstValueIs(inst: seq<FileInfo>, toi: nat, f: Field)
    ensures FirstValue(inst, toi, f).None? ==> forall j :: 0 <= j < |inst| && inst[j].toi == toi ==> Get(inst[j], f).None?
    ensures FirstValue(inst, toi, f).Some? ==>
              exists j :: 0 <= j < |inst| && inst[j].toi == toi && Get(inst[j], f) == FirstValue(inst, toi, f)
                && forall l :: 0 <= l < j && inst[l].toi == toi ==> Get(inst[l], f).None?
  {
    hide Get;
    if inst != [] {
      var n := |inst| - 1;
      var t := inst[..n];
      FirstValueIs(t, toi, f);
      if FirstValue(t, toi, f).Some? {
        var j :| 0 <= j < n && t[j].toi == toi && Get(t[j], f) == FirstValue(t, toi, f)
          && forall l :: 0 <= l < j && t[l].toi == toi ==> Get(t[l], f).None?;
        assert inst[j].toi == toi;
        forall l | 0 <= l < j && inst[l].toi == toi ensures Get(inst[l], f).None? {
          assert t[l] == inst[l];
        }
      } else {
        forall l | 0 <= l < n && inst[l].toi == toi ensures Get(inst[l], f).None? {
          assert t[l] == inst[l];
        }
      }
    }
  }

  lemma UpdateAt(db: seq<FileInfo>, f: FileInfo, i: nat)
    requires UniqueTois(db) && i < |Update(db, f)|
    ensures Update(db, f)[i] == if i == |db| then f else if db[i].toi == f.toi then Merge(f, db[i]) else db[i]
    ensures i == |db| ==> f.toi !in Tois(db)
    ensures i < |db| ==> Update(db, f)[i].toi == db[i].toi
  {
    FindsToi(db, f.toi);
    MergeKeeps(f, if i < |db| then db[i] else BLANK);
    hide Merge;
  }

  lemma {:induction false} NoValue(inst: seq<FileInfo>, toi: nat, f: Field)
    requires toi !in Tois(inst)
    ensures FirstValue(inst, toi, f).None?
  {
    if inst != [] {
      var n := |inst| - 1;
      TwoTois(inst, n);
      NoValue(inst[..n], toi, f);
    }
  }

  /** Field by field: what the table has stays, and what it lacks comes from the first
      description of the instance that has it, or stays absent. */
  lemma {:induction false} FieldOrigin(db: seq<FileInfo>, inst: seq<FileInfo>, i: nat, f: Field)
    requires UniqueTois(db) && i < |UpdateAll(db, inst)|
    ensures var r := UpdateAll(db, inst);
            Get(r[i], f) == if i < |db| && Get(db[i], f).Some? then Get(db[i], f) else FirstValue(inst, r[i].toi, f)
  {
    hide Get, Merge, Update, Tois, UniqueTois;
    if inst != [] {
      var n := |inst| - 1;
      var x := UpdateAll(db, inst[..n]);
      UpdateAllFacts(db, inst[..n]);
      UpdateAt(x, inst[n], i);
      if i < |x| {
        FieldOrigin(db, inst[..n], i, f);
        GetMerge(inst[n], x[i], f);
      } else {
        NoValue(inst[..n], inst[n].toi, f);
      }
      hide Grows;
    }
  }

  // ----- idempotence

  /** The table says everything that f says. */
  ghost predicate Covered(db: seq<FileInfo>, f: FileInfo) {
    var p := FindToi(db, f.toi);
    p < |db| && Merge(f, db[p]) == db[p]
  }

  lemma CoveredAfter(db: seq<FileInfo>, f: FileInfo)
    ensures Covered(Update(db, f), f)
  {
    var p := FindToi(db, f.toi);
    MergeKeeps(f, if p < |db| then db[p] else BLANK);
    KeepsOrder(f, f, f);
    FindToiAt(Update(db, f), f.toi, p);
    hide Merge;
  }

  lemma CoveredStays(db: seq<FileInfo>, r: seq<FileInfo>, f: FileInfo)
    requires Covered(db, f) && Grows(db, r)
    ensures Covered(r, f)
  {
    var p := FindToi(db, f.toi);
    FindToiAt(r, f.toi, p);
    KeepsOrder(f, db[p], r[p]);
    hide Merge, Keeps;
  }

  lemma {:induction false} AllCovered(db: seq<FileInfo>, inst: seq<FileInfo>)
    ensures forall i :: 0 <= i < |inst| ==> Covered(UpdateAll(db, inst), inst[i])
  {
    if inst != [] {
      var n := |inst| - 1;
      var x := UpdateAll(db, inst[..n]);
      AllCovered(db, inst[..n]);
      CoveredAfter(x, inst[n]);
      UpdateFacts(x, inst[n]);
      hide Covered, Grows, Update;
      forall i | 0 <= i < n ensures Covered(UpdateAll(db, inst), inst[i]) {
        assert inst[..n][i] == inst[i];
        CoveredStays(x, UpdateAll(db, inst), inst[i]);
      }
    }
  }

  lemma {:induction false} NothingNew(db: seq<FileInfo>, inst: seq<FileInfo>)
    requires forall i :: 0 <= i < |inst| ==> Covered(db, inst[i])
    ensures UpdateAll(db, inst) == db && CodeAll(db, inst) == 0
  {
    hide Merge;
    if inst != [] {
      NothingNew(db, inst[..|inst| - 1]);
      assert Covered(db, inst[|inst| - 1]);
    }
  }

  /** The same instance again changes nothing, and 0 is returned. */
  lemma Idempotent(db: seq<FileInfo>, inst: seq<FileInfo>)
    ensures var r := UpdateAll(db, inst); UpdateAll(r, inst) == r && CodeAll(r, inst) == 0
  {
    AllCovered(db, inst);
    NothingNew(UpdateAll(db, inst), inst);
  }

  // ----- the return code

  /** Entry i of the instance is the first with its TOI, and the table does not have it. */
  ghost predicate IsNew(db: seq<FileInfo>, inst: seq<FileInfo>, i: nat)
    requires i < |inst|
  {
    inst[i].toi !in Tois(db) && inst[i].toi !in Tois(inst[..i])
  }

  lemma NewMeansAdded(db: seq<FileInfo>, inst: seq<FileInfo>, n: nat)
    requires n + 1 == |inst|
    ensures var x := UpdateAll(db, inst[..n]);
            FindToi(x, inst[n].toi) == |x| <==> IsNew(db, inst, n)
  {
    UpdateAllFacts(db, inst[..n]);
    FindsToi(UpdateAll(db, inst[..n]), inst[n].toi);
  }

  lemma NewInPrefix(db: seq<FileInfo>, inst: seq<FileInfo>, n: nat, i: nat)
    requires i < n <= |inst|
    ensures IsNew(db, inst[..n], i) <==> IsNew(db, inst, i)
  {
    assert inst[..n][..i] == inst[..i];
  }

  /** The last entry decides, or there was one before. */
  lemma SomeNew(db: seq<FileInfo>, inst: seq<FileInfo>, n: nat, blank: bool)
    requires n + 1 == |inst|
    ensures (exists i :: 0 <= i < |inst| && IsNew(db, inst, i) && (blank || inst[i] != BLANK))
            <==> (exists i :: 0 <= i < n && IsNew(db, inst[..n], i) && (blank || inst[..n][i] != BLANK))
                 || (IsNew(db, inst, n) && (blank || inst[n] != BLANK))
  {
    hide IsNew;
    forall i | 0 <= i < n ensures IsNew(db, inst[..n], i) <==> IsNew(db, inst, i) {
      NewInPrefix(db, inst, n, i);
    }
    if exists i :: 0 <= i < n && IsNew(db, inst, i) && (blank || inst[i] != BLANK) {
      var i :| 0 <= i < n && IsNew(db, inst, i) && (blank || inst[i] != BLANK);
      assert IsNew(db, inst[..n], i) && inst[..n][i] == inst[i];
    }
  }

  /** 2 is returned exactly if a new entry has some field at all. */
  lemma {:induction false} ReturnsTwo(db: seq<FileInfo>, inst: seq<FileInfo>)
    ensures 0 <= CodeAll(db, inst) <= 2
    ensures CodeAll(db, inst) == 2 <==> exists i :: 0 <= i < |inst| && IsNew(db, inst, i) && inst[i] != BLANK
  {
    hide IsNew, Merge, FindToi, UpdateAll;
    if inst != [] {
      var n := |inst| - 1;
      ReturnsTwo(db, inst[..n]);
      NewMeansAdded(db, inst, n);
      MergeKeeps(inst[n], BLANK);
      SomeNew(db, inst, n, false);
    }
  }

  lemma {:induction false} GrewMeansNew(db: seq<FileInfo>, inst: seq<FileInfo>)
    ensures |UpdateAll(db, inst)| > |db| <==> exists i :: 0 <= i < |inst| && IsNew(db, inst, i)
  {
    hide IsNew, Merge, FindToi;
    if inst != [] {
      var n := |inst| - 1;
      GrewMeansNew(db, inst[..n]);
      NewMeansAdded(db, inst, n);
      SomeNew(db, inst, n, true);
    }
  }

  /** The code 2 tells exactly that there are new files, unless the only new TOI is 0 and
      its first description is empty. */
  lemma TwoExactly(db: seq<FileInfo>, inst: seq<FileInfo>)
    ensures (CodeAll(db, inst) == 2 <==> |UpdateAll(db, inst)| > |db|)
            <==> !((exists i :: 0 <= i < |inst| && IsNew(db, inst, i))
                   && forall i :: 0 <= i < |inst| && IsNew(db, inst, i) ==> inst[i] == BLANK)
  {
    hide IsNew, CodeAll, UpdateAll;
    ReturnsTwo(db, inst);
    GrewMeansNew(db, inst);
  }

  /** An empty description is added to the table without being reported. */
  lemma EmptyDescription(f: FileInfo)
    requires f.toi != 0
    ensures UpdateAll([f], [BLANK]) == [f, BLANK] && CodeAll([f], [BLANK]) == 0
  {
    var inst := [BLANK];
    assert inst[..0] == [];
    FindToiAt([f], 0, 1);
    MergeKeeps(BLANK, BLANK);
    hide Merge;
  }

  /** Without empty descriptions, so with TOIs other than 0, the code is exact: 2 for new files, 1 if descriptions have only
      been complemented, 0 if nothing has changed. */
  lemma {:induction false} CodeMeaning(db: seq<FileInfo>, inst: seq<FileInfo>)
    requires forall i :: 0 <= i < |inst| ==> inst[i] != BLANK
    ensures CodeAll(db, inst) == 2 <==> |UpdateAll(db, inst)| > |db|
    ensures CodeAll(db, inst) == 0 <==> UpdateAll(db, inst) == db
    ensures 0 <= CodeAll(db, inst) <= 2
  {
    hide IsNew, Merge, Grows, FindToi;
    ReturnsTwo(db, inst);
    GrewMeansNew(db, inst);
    if inst != [] {
      var n := |inst| - 1;
      var x, r, f := UpdateAll(db, inst[..n]), UpdateAll(db, inst), inst[n];
      CodeMeaning(db, inst[..n]);
      UpdateAllFacts(db, inst[..n]);
      UpdateFacts(x, f);
      MergeKeeps(f, BLANK);
      if r == db {
        GrowsOrder(x, db, db);
        assert x == db;
      }
    }
  }
}
