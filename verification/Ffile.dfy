/** One file of a fifo: siridb_ffile_t and the bytes on disk it stands for. */
module Ffile {
  import opened Common
  import opened Files
  import opened FifoBytes

  /** The fifo directory: the bytes of each file by the id in its name. */
  class Disk {
    var files: map<nat, Bytes>

    constructor ()
      ensures files == map[]
    {
      files := map[];
    }
  }

  datatype Appended = Stored | NoFreeSpace

  class File {
    const disk: Disk
    const id: nat
    var free_space: nat
    var next_size: nat
    var size: int
    var open: bool  // whether fp is not NULL

    ghost var low: nat            // the lowest offset written so far
    ghost var pkgs: seq<Bytes>    // the packages in the file, oldest first

    ghost predicate Valid()
      reads this, disk
    {
      && id in disk.files && Layout(disk.files[id], low, pkgs)
      && (disk.files[id] == [] || size == |disk.files[id]|)
      && (disk.files[id] == [] && free_space > 0 ==> size == low)
      && (free_space == low || free_space == 0)
      && low <= UINT32_MAX
      && next_size == (if pkgs == [] then 0 else |pkgs[0]|)
    }

    lemma NextMeans()
      requires Valid()
      ensures next_size == 0 <==> pkgs == []
    {}

    /** A file stays as it is while others are written. */
    twostate lemma Kept()
      requires old(Valid()) && unchanged(this)
      requires id in disk.files && disk.files[id] == old(disk.files[id])
      ensures Valid()
    {}

    /** siridb_ffile_new when there is no file with this id yet and no package is given. */
    constructor Fresh(d: Disk, i: nat)
      requires i !in d.files
      modifies d
      ensures Valid() && disk == d && id == i && open && pkgs == [] && free_space == FFILE_DEFAULT_SIZE
      ensures d.files == old(d.files)[i := []]
    {
      disk, id, next_size, open := d, i, 0, true;
      size, free_space := FFILE_DEFAULT_SIZE, FFILE_DEFAULT_SIZE;
      low, pkgs := FFILE_DEFAULT_SIZE, [];
      new;
      disk.files := disk.files[id := []];
    }

    /** siridb_ffile_new with a first package: the file is made large enough for it. */
    constructor WithPackage(d: Disk, i: nat, p: Bytes)
      requires i !in d.files && IsPackage(p)
      modifies d
      ensures Valid() && disk == d && id == i && open && pkgs == [p]
      ensures |p| + 2 * UINT32_SZ > FFILE_DEFAULT_SIZE ==> free_space == UINT32_SZ
      ensures d.files.Keys == old(d.files).Keys + {i}
      ensures forall j :: j in old(d.files) ==> d.files[j] == old(d.files)[j]
    {
      disk, id, next_size, open := d, i, 0, true;
      var sz := |p| + 2 * UINT32_SZ;
      var n := if sz > FFILE_DEFAULT_SIZE then sz else FFILE_DEFAULT_SIZE;
      size, free_space := n, n;
      low, pkgs := n, [];
      new;
      disk.files := disk.files[id := []];
      var rc := Append(p);
    }

    /** siridb_ffile_append */
    method Append(p: Bytes) returns (rc: Appended)
      requires Valid() && IsPackage(p) && open
      modifies this, disk
      ensures Valid() && open
      ensures rc == if |p| + 2 * UINT32_SZ <= old(free_space) then Stored else NoFreeSpace
      ensures rc.Stored? ==> pkgs == old(pkgs) + [p] && free_space == old(free_space) - |p| - UINT32_SZ
      ensures rc.NoFreeSpace? ==> pkgs == old(pkgs) && disk.files == old(disk.files)
      ensures disk.files.Keys == old(disk.files).Keys
      ensures forall j :: j in disk.files && j != id ==> disk.files[j] == old(disk.files)[j]
    {
      hide WriteAt, Le32, FromLe32, Enc;
      if free_space < |p| + 2 * UINT32_SZ {
        free_space := 0;
        return NoFreeSpace;
      }
      AppendLayout(disk.files[id], low, pkgs, p);
      if next_size == 0 {
        next_size := |p|;
      }
      free_space := free_space - (|p| + UINT32_SZ);
      disk.files := disk.files[id := WriteAt(disk.files[id], free_space, p)];
      disk.files := disk.files[id := WriteAt(disk.files[id], free_space + |p|, Le32(|p|))];
      low := free_space;
      pkgs := pkgs + [p];
      rc := Stored;
    }

    /** siridb_ffile_pop: reads the oldest package, which stays in the file.  The checks that
        guard against a corrupt package pass. */
    method Pop() returns (p: Option<Bytes>)
      requires Valid() && open && next_size != 0
      ensures p == Some(pkgs[0])
    {
      hide Layout, FromLe32;
      var b := disk.files[id];
      PopLayout(b, low, pkgs);
      var pkg := b[|b| - next_size - UINT32_SZ..][..next_size];
      if next_size < PKG_HEADER_SZ || FromLe32(pkg[..UINT32_SZ]) != next_size - PKG_HEADER_SZ {
        return None;
      }
      return Some(pkg);
    }

    /** siridb_ffile_pop_commit: the oldest package is cut off. */
    method PopCommit()
      requires Valid() && open && next_size != 0
      modifies this, disk
      ensures Valid() && open && pkgs == old(pkgs)[1..]
      ensures disk.files.Keys == old(disk.files).Keys
      ensures forall j :: j in disk.files && j != id ==> disk.files[j] == old(disk.files)[j]
    {
      hide FromLe32, Enc;
      var b := disk.files[id];
      CommitLayout(b, low, pkgs);
      size := size - (next_size + UINT32_SZ);
      next_size := FromLe32(b[size - UINT32_SZ..size]);
      disk.files := disk.files[id := b[..size]];
      pkgs := pkgs[1..];
    }

    /** siridb_ffile_open */
    method Open()
      requires Valid()
      modifies this`open
      ensures Valid() && open
    {
      open := true;
    }

    method Close()
      requires Valid()
      modifies this`open
      ensures Valid() && !open
    {
      open := false;
    }

    /** The packages can be read off the bytes alone. */
    lemma Parsed()
      requires Valid()
      ensures Parse(disk.files[id]) == pkgs
    {
      ParseLayout(disk.files[id], low, pkgs);
    }

    /** siridb_ffile_new when the file exists: nothing more is appended to it. */
    constructor Existing(d: Disk, i: nat, next: nat, ghost l: nat, ghost ps: seq<Bytes>)
      requires i in d.files && Layout(d.files[i], l, ps) && l <= UINT32_MAX && ps != [] && next == |ps[0]|
      ensures Valid() && disk == d && id == i && !open && pkgs == ps
    {
      disk, id, free_space, next_size, size, open := d, i, 0, next, |d.files[i]|, false;
      low, pkgs := l, ps;
    }
  }

  /** siridb_ffile_new for an existing file, which is removed when there is nothing in it. */
  method Reopen(d: Disk, i: nat, ghost l: nat, ghost ps: seq<Bytes>) returns (f: File?)
    requires i in d.files && Layout(d.files[i], l, ps) && l <= UINT32_MAX
    modifies d
    ensures ps == [] ==> f == null && d.files == old(d.files) - {i}
    ensures ps != [] ==> f != null && fresh(f) && f.Valid() && f.disk == d && f.id == i && !f.open && f.pkgs == ps
    ensures ps != [] ==> d.files == old(d.files)
  {
    var b := d.files[i];
    var next := 0;
    if |b| >= UINT32_SZ {
      next := FromLe32(b[|b| - UINT32_SZ..]);
    }
    LastWord(b, l, ps);
    if next == 0 {
      d.files := d.files - {i};
      return null;
    }
    f := new File.Existing(d, i, next, l, ps);
  }

  lemma LastWord(b: Bytes, l: nat, ps: seq<Bytes>)
    requires Layout(b, l, ps)
    ensures ps != [] ==> |b| >= UINT32_SZ && FromLe32(b[|b| - UINT32_SZ..]) == |ps[0]| > 0
    ensures ps == [] && |b| >= UINT32_SZ ==> FromLe32(b[|b| - UINT32_SZ..]) == 0
  {
    if ps != [] {
      ParseStep(b, l, ps);
    } else if |b| >= UINT32_SZ {
      assert b[|b| - UINT32_SZ..] == Zeros(UINT32_SZ);
      ZeroWord();
    }
  }
}
