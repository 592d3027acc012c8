/** siridb_fifo_t: a chain of fifo files.  `out` is read, `in_` is written, and they may be
    the same file; the files between them wait in `fifos`. */
module Fifo {
  import opened Common
  import opened FifoBytes
  import opened Ffile

  /** File names have nine digits, and only such names are found again. */
  const MAX_ID: nat := 999_999_999

  // ---- the queue that the bytes in a directory stand for ----

  /** The packages of the files with ids below n, file by file, oldest first. */
  function DiskQueue(files: map<nat, Bytes>, n: nat): seq<Bytes> {
    if n == 0 then []
    else DiskQueue(files, n - 1) + if n - 1 in files then Parse(files[n - 1]) else []
  }

  ghost predicate SameBelow(f: map<nat, Bytes>, g: map<nat, Bytes>, n: nat) {
    forall j: nat :: j < n ==> (j in f <==> j in g) && (j in f ==> f[j] == g[j])
  }

  lemma {:induction false} QueueOfSame(f: map<nat, Bytes>, g: map<nat, Bytes>, n: nat)
    requires SameBelow(f, g, n)
    ensures DiskQueue(f, n) == DiskQueue(g, n)
  {
    if n > 0 {
      QueueOfSame(f, g, n - 1);
    }
  }

  /** Ids without a file add nothing. */
  lemma {:induction false} QueueGap(f: map<nat, Bytes>, m: nat, n: nat)
    requires m <= n && forall j: nat :: m <= j < n ==> j !in f
    ensures DiskQueue(f, n) == DiskQueue(f, m)
    decreases n
  {
    if m < n {
      QueueGap(f, m, n - 1);
    }
  }

  ghost predicate SameExcept(f: map<nat, Bytes>, g: map<nat, Bytes>, m: nat) {
    forall j: nat :: j != m ==> (j in f <==> j in g) && (j in f ==> f[j] == g[j])
  }

  /** The packages of one id. */
  function At(f: map<nat, Bytes>, m: nat): seq<Bytes> {
    if m in f then Parse(f[m]) else []
  }

  lemma AtMeans(f: map<nat, Bytes>, m: nat)
    ensures DiskQueue(f, m + 1) == DiskQueue(f, m) + At(f, m)
  {}

  lemma AtIs(f: map<nat, Bytes>, m: nat, ps: seq<Bytes>)
    requires m in f && Parse(f[m]) == ps
    ensures At(f, m) == ps
  {}

  lemma SameAt(f: map<nat, Bytes>, g: map<nat, Bytes>, m: nat, k: nat)
    requires SameExcept(f, g, m) && k != m
    ensures At(f, k) == At(g, k)
  {}

  lemma EmptyQueue(f: map<nat, Bytes>, n: nat)
    requires forall j: nat :: j < n ==> j !in f
    ensures DiskQueue(f, n) == []
  {
    QueueGap(f, 0, n);
  }

  /** A package more in the last file. */
  lemma QueueAppend(f: map<nat, Bytes>, g: map<nat, Bytes>, n: nat, p: Bytes)
    requires SameBelow(f, g, n) && At(g, n) == At(f, n) + [p]
    ensures DiskQueue(g, n + 1) == DiskQueue(f, n + 1) + [p]
  {
    hide Parse;
    QueueOfSame(f, g, n);
    AtMeans(f, n);
    AtMeans(g, n);
    var q, x := DiskQueue(f, n), At(f, n);
    assert q + (x + [p]) == q + x + [p];
  }

  /** The first package of the first file leaves. */
  lemma {:induction false} QueueCommit(f: map<nat, Bytes>, g: map<nat, Bytes>, m: nat, n: nat)
    requires m < n && SameExcept(f, g, m) && (forall j: nat :: j < m ==> j !in f)
    requires At(f, m) != [] && At(g, m) == At(f, m)[1..]
    ensures DiskQueue(f, n) != [] && DiskQueue(f, n)[0] == At(f, m)[0]
    ensures DiskQueue(g, n) == DiskQueue(f, n)[1..]
    decreases n
  {
    hide Parse, At, DiskQueue;
    AtMeans(f, n - 1);
    AtMeans(g, n - 1);
    if n == m + 1 {
      EmptyQueue(f, m);
      EmptyQueue(g, m);
    } else {
      QueueCommit(f, g, m, n - 1);
      SameAt(f, g, m, n - 1);
    }
  }

  /** A file without packages can go. */
  lemma {:induction false} QueueDrop(f: map<nat, Bytes>, m: nat, n: nat)
    requires At(f, m) == []
    ensures DiskQueue(f - {m}, n) == DiskQueue(f, n)
    decreases n
  {
    if n > 0 {
      QueueDrop(f, m, n - 1);
    }
  }

  function Ids(c: seq<File>): set<nat> {
    set i | 0 <= i < |c| :: c[i].id
  }

  lemma InIds(c: seq<File>, i: nat)
    requires i < |c|
    ensures c[i].id in Ids(c)
  {}

  lemma IdsAppend(c: seq<File>, n: File)
    ensures Ids(c + [n]) == Ids(c) + {n.id}
  {
    var d := c + [n];
    assert forall i :: 0 <= i < |c| ==> d[i] == c[i];
    assert d[|c|] == n;
    forall k ensures k in Ids(d) <==> k in Ids(c) + {n.id} {
      if k in Ids(c) {
        var i :| 0 <= i < |c| && c[i].id == k;
        assert d[i].id == k;
      }
    }
  }

  /** The last file of a chain has the largest id. */
  lemma IdsUpTo(c: seq<File>)
    requires c != [] && forall i, j :: 0 <= i < j < |c| ==> c[i].id < c[j].id
    ensures forall k :: k in Ids(c) ==> c[0].id <= k <= c[|c| - 1].id
  {}

  lemma {:induction false} QueueFirst(f: map<nat, Bytes>, m: nat, n: nat)
    requires m < n && (forall j: nat :: j < m ==> j !in f) && At(f, m) != []
    ensures DiskQueue(f, n) != [] && DiskQueue(f, n)[0] == At(f, m)[0]
    decreases n
  {
    AtMeans(f, n - 1);
    if n == m + 1 {
      EmptyQueue(f, m);
    } else {
      QueueFirst(f, m, n - 1);
    }
  }

  lemma MapMinus(f: map<nat, Bytes>, k: nat)
    ensures (f - {k}).Keys == f.Keys - {k}
  {}

  /** All packages of a list of files. */
  ghost function Flat(c: seq<File>): seq<Bytes>
    reads c
  {
    if c == [] then [] else Flat(c[..|c| - 1]) + c[|c| - 1].pkgs
  }

  lemma {:induction false} FlatEmpty(c: seq<File>)
    ensures Flat(c) == [] <==> forall i :: 0 <= i < |c| ==> c[i].pkgs == []
  {
    if c != [] {
      FlatEmpty(c[..|c| - 1]);
    }
  }

  lemma {:induction false} QueueIsFlat(c: seq<File>, f: map<nat, Bytes>, n: nat)
    requires forall i, j :: 0 <= i < j < |c| ==> c[i].id < c[j].id
    requires forall i :: 0 <= i < |c| ==> c[i].id < n && At(f, c[i].id) == c[i].pkgs
    requires forall k: nat :: k < n && k in f ==> k in Ids(c)
    ensures DiskQueue(f, n) == Flat(c)
    decreases |c|
  {
    hide DiskQueue, At;
    if c == [] {
      EmptyQueue(f, n);
    } else {
      var front, last := c[..|c| - 1], c[|c| - 1];
      forall k: nat | k < n && k in f ensures k <= last.id && (k < last.id ==> k in Ids(front)) {
        var i :| 0 <= i < |c| && c[i].id == k;
        if i < |front| {
          InIds(front, i);
          assert front[i] == c[i];
        }
      }
      QueueGap(f, last.id + 1, n);
      AtMeans(f, last.id);
      QueueIsFlat(front, f, last.id);
    }
  }

  class Fifo {
    const disk: Disk
    var fifos: seq<File>
    var in_: File
    var out: File
    var max_id: nat

    constructor (d: Disk, fs: seq<File>, i: File, o: File, m: nat)
      ensures disk == d && fifos == fs && in_ == i && out == o && max_id == m
    {
      disk, fifos, in_, out, max_id := d, fs, i, o, m;
    }

    ghost function Chain(): seq<File>
      reads this
    {
      [out] + fifos
    }

    ghost predicate Files(c: seq<File>)
      reads c, disk
    {
      && (forall i :: 0 <= i < |c| ==> c[i].disk == disk && c[i].Valid())
      && (forall i, j :: 0 <= i < j < |c| ==> c[i].id < c[j].id)
      && disk.files.Keys == Ids(c)
    }

    ghost predicate Linked()
      reads this, out, fifos, disk
    {
      && Files(Chain())
      && in_ == Chain()[|fifos|] && in_.id == max_id
      && in_.open && out.open
    }

    /** What every step keeps. */
    ghost predicate Core()
      reads this, out, fifos, disk
    {
      Linked() && (in_ != out && in_.pkgs == [] ==> in_.free_space == FFILE_DEFAULT_SIZE)
    }

    /** Something can be read, or there is nothing behind what is being read. */
    ghost predicate Live()
      reads this, out
    {
      out.pkgs != [] || fifos == []
    }

    /** Only the last file of the chain may be empty. */
    ghost predicate Full()
      reads this, out, fifos, disk
    {
      forall i :: 0 <= i < |fifos| ==> Chain()[i].pkgs != []
    }

    ghost predicate Valid()
      reads this, out, fifos, disk
    {
      Core() && Full()
    }

    /** The new file is both ends of the fifo, and the other files wait where no commit looks. */
    ghost predicate Detached()
      reads this, in_, fifos, disk
    {
      && out == in_ && in_.open && in_.id == max_id && fifos != []
      && Files(fifos + [in_])
    }

    /** The queue, read off the bytes on disk alone. */
    ghost function Queue(): seq<Bytes>
      reads this, disk
    {
      DiskQueue(disk.files, max_id + 1)
    }

    /** The last file got a package or none: the chain is as it was. */
    twostate lemma LastWritten()
      requires old(Linked()) && unchanged(this)
      requires in_.Valid() && in_.open && out.open
      requires forall i :: 0 <= i < |fifos| ==> unchanged(Chain()[i])
      requires disk.files.Keys == old(disk.files).Keys
      requires forall j :: j in disk.files && j != in_.id ==> disk.files[j] == old(disk.files)[j]
      ensures Linked()
    {
      hide Layout, Parse, File.Valid, Ids;
      var c := Chain();
      forall i | 0 <= i < |fifos| ensures c[i].Valid() {
        assert c[i].id in Ids(c) by { InIds(c, i); }
        c[i].Kept();
      }
    }

    /** siridb_fifo_append: the package is the last one of the queue on disk.  When the last file is
        full while the fifo is not live, the waiting files come off the chain. */
    method Append(p: Bytes)
      requires Core() && IsPackage(p) && max_id < MAX_ID
      modifies this, out, fifos, disk
      ensures Queue() == old(Queue()) + [p] && old(max_id) <= max_id <= old(max_id) + 1
      ensures old(Live()) || |p| + 2 * UINT32_SZ <= old(in_.free_space) ==> Core() && (Live() <==> old(Live()))
      ensures !old(Live()) && |p| + 2 * UINT32_SZ > old(in_.free_space) ==>
                && Detached() && out.pkgs == [p] && fifos == old(fifos)
                && forall i :: 0 <= i < |fifos| ==> fifos[i].pkgs == old(fifos[i].pkgs)
      ensures old(Live()) && |p| + 2 * UINT32_SZ > old(in_.free_space) ==>
                && fresh(in_) && in_.pkgs == [p]
                && (|p| + 2 * UINT32_SZ > FFILE_DEFAULT_SIZE ==> in_.free_space == UINT32_SZ)
                && if old(out.pkgs) == [] then out == in_ && fifos == []
                   else && out == old(out) && fifos == old(fifos) + [in_] && out.pkgs == old(out.pkgs)
                        && forall i :: 0 <= i < |old(fifos)| ==> fifos[i].pkgs == old(fifos[i].pkgs)
      ensures old(Full() && Live()) ==>
                (Full() <==> |p| + 8 <= 104857600 || old(in_.pkgs) != [] || old(in_) == old(out))
    {
      hide File.Valid, Layout, Parse, DiskQueue, Ids, IsPackage;
      assert in_ in fifos || in_ == out;
      ghost var f := disk.files;
      ghost var was := in_.pkgs;
      in_.Parsed();
      Distinct();
      var rc := in_.Append(p);
      LastWritten();
      if rc.Stored? {
        in_.Parsed();
        assert At(f, max_id) == was && At(disk.files, max_id) == was + [p];
        QueueAppend(f, disk.files, max_id, p);
      } else {
        Roll(p);
      }
    }

    lemma Distinct()
      requires Linked()
      ensures forall i :: 0 <= i < |fifos| ==> Chain()[i] != in_
      ensures out == in_ <==> fifos == []
      ensures in_.id in disk.files && in_.Valid()
    {
      InIds(Chain(), |fifos|);
      assert fifos != [] ==> Chain()[0].id < Chain()[|fifos|].id;
    }

    /** The branch for a full file: a new one takes its place. */
    method Roll(p: Bytes)
      requires Linked() && IsPackage(p) && max_id < MAX_ID
      modifies this, out, fifos, disk
      ensures Queue() == old(Queue()) + [p] && max_id == old(max_id) + 1
      ensures old(Live()) ==>
                && Core() && Live() && fresh(in_) && in_.pkgs == [p]
                && (|p| + 2 * UINT32_SZ > FFILE_DEFAULT_SIZE ==> in_.free_space == UINT32_SZ)
                && if old(out.pkgs) == [] then out == in_ && fifos == []
                   else && out == old(out) && fifos == old(fifos) + [in_] && out.pkgs == old(out.pkgs)
                        && forall i :: 0 <= i < |old(fifos)| ==> fifos[i].pkgs == old(fifos[i].pkgs)
      ensures !old(Live()) ==>
                && Detached() && out.pkgs == [p] && fifos == old(fifos)
                && forall i :: 0 <= i < |fifos| ==> fifos[i].pkgs == old(fifos[i].pkgs)
      ensures old(Full() && Live()) ==> (Full() <==> old(in_.pkgs) != [] || old(in_) == old(out))
    {
      hide File.Valid, Layout, Parse, DiskQueue, IsPackage, Files, Ids;
      ghost var was := Chain();
      if in_ != out {
        CloseIn();
      }
      NewIn(p);
      OutMeans();
      if out.next_size == 0 {
        assert Chain() + [in_] == [out] + (fifos + [in_]);
        ReplaceOut();
      } else {
        fifos := fifos + [in_];
        assert Chain() == was + [in_];
        assert forall i :: 0 <= i < |was| ==> Chain()[i] == was[i] && was[i].pkgs == old(was[i].pkgs);
        assert was[|was| - 1] == old(in_);
      }
    }

    method CloseIn()
      requires Linked() && in_ != out
      modifies in_`open
      ensures Files(Chain()) && out.open
    {
      Distinct();
      in_.Close();
    }

    /** in_ becomes a new file with one package; it is not in the chain yet. */
    method NewIn(p: Bytes)
      requires Files(Chain()) && Chain()[|fifos|].id == max_id && IsPackage(p)
      modifies this`in_, this`max_id, disk
      ensures max_id == old(max_id) + 1 && fresh(in_) && in_.open && in_.pkgs == [p]
      ensures Files(Chain() + [in_]) && in_.id == max_id
      ensures Queue() == old(Queue()) + [p]
      ensures |p| + 2 * UINT32_SZ > FFILE_DEFAULT_SIZE ==> in_.free_space == UINT32_SZ
    {
      hide Layout, Parse, DiskQueue, IsPackage, File.Valid, Ids;
      ghost var c, f := Chain(), disk.files;
      ghost var last := max_id;
      IdsUpTo(c);
      label Before:
      max_id := max_id + 1;
      in_ := new File.WithPackage(disk, max_id, p);
      forall i | 0 <= i < |c| ensures c[i].Valid() {
        InIds(c, i);
        c[i].Kept@Before();
      }
      in_.Parsed();
      IdsAppend(c, in_);
      QueueAppend(f, disk.files, max_id, p);
      QueueGap(f, last + 1, max_id + 1);
    }

    lemma OutMeans()
      requires Files(Chain() + [in_])
      ensures (Chain() + [in_])[0] == out
      ensures out.next_size == 0 <==> out.pkgs == []
    {
    }

    /** The first file is empty: it goes, and the new one is both ends. */
    method ReplaceOut()
      requires out.pkgs == [] && Files([out] + (fifos + [in_])) && in_.id == max_id && in_.open && in_.pkgs != []
      modifies this`out, disk
      ensures out == in_ && Queue() == old(Queue()) && Files(fifos + [in_])
      ensures if fifos == [] then Core() else Detached()
    {
      hide Layout, Parse, DiskQueue, File.Valid, Ids;
      ghost var rest := fifos + [in_];
      ghost var c := [out] + rest;
      assert c[0].Valid() && out == c[0];
      assert forall i :: 0 <= i < |rest| ==> rest[i] == c[i + 1];
      IdsUpTo(c);
      out.Parsed();
      QueueDrop(disk.files, out.id, max_id + 1);
      RestWithoutFirst(c);
      assert c[1..] == rest;
      label Before:
      disk.files := disk.files - {out.id};
      MapMinus(old(disk.files), c[0].id);
      forall i | 0 < i < |c| ensures c[i].Valid() {
        InIds(c, i);
        assert c[0].id < c[i].id;
        c[i].Kept@Before();
      }
      out := in_;
      if fifos == [] {
        assert rest == [in_] && Chain() == [in_];
      }
    }

    /** The first file of the chain changed, the others did not. */
    twostate lemma FirstWritten()
      requires old(Linked()) && unchanged(this)
      requires out.Valid() && out.open
      requires forall i :: 0 < i <= |fifos| ==> unchanged(Chain()[i])
      requires disk.files.Keys == old(disk.files).Keys
      requires forall j :: j in disk.files && j != out.id ==> disk.files[j] == old(disk.files)[j]
      ensures Linked()
    {
      hide Layout, Parse, File.Valid, Ids;
      var c := Chain();
      forall i | 0 < i <= |fifos| ensures c[i].Valid() {
        InIds(c, i);
        assert c[0].id < c[i].id;
        c[i].Kept();
      }
    }

    /** What has been read is what stands first in the queue. */
    lemma FirstIsOut()
      requires Linked() && out.pkgs != []
      ensures Queue() != [] && Queue()[0] == out.pkgs[0]
    {
      hide Layout, Parse, DiskQueue, File.Valid;
      var f := disk.files;
      IdsUpTo(Chain());
      assert Chain()[0].Valid();
      InIds(Chain(), 0);
      out.Parsed();
      QueueFirst(f, out.id, max_id + 1);
    }

    /** siridb_fifo_pop: the front of the queue, which stays. */
    method Pop() returns (p: Option<Bytes>)
      requires Linked() && out.next_size != 0
      ensures Queue() != [] && p == Some(Queue()[0])
    {
      assert Chain()[0].Valid();
      FirstIsOut();
      p := out.Pop();
    }

    /** siridb_fifo_commit: the front of the queue goes. */
    method Commit()
      requires Core() && out.next_size != 0
      modifies this, out, fifos, disk
      ensures Core() && old(Queue()) != [] && Queue() == old(Queue())[1..] && max_id == old(max_id)
      ensures Live() <==> |old(out.pkgs)| > 1 || |old(fifos)| <= 1 || old(fifos[0].pkgs) != []
      ensures if |old(out.pkgs)| > 1 || old(fifos) == []
              then out == old(out) && fifos == old(fifos) && out.pkgs == old(out.pkgs)[1..]
              else out == old(fifos)[0] && fifos == old(fifos)[1..] && out.pkgs == old(fifos[0].pkgs)
      ensures forall f :: f in fifos ==> f in old(fifos) && f.pkgs == old(f.pkgs) && f.free_space == old(f.free_space)
      ensures old(Full()) ==> Full() && Live()
    {
      hide Layout, Parse, DiskQueue, File.Valid, Ids, Files;
      ghost var c := Chain();
      CommitFirst();
      Distinct();
      assert forall i :: 0 < i <= |fifos| ==> c[i] == fifos[i - 1] && c[i].pkgs == old(c[i].pkgs);
      if out.next_size == 0 && out != in_ {
        Shift();
        assert forall i :: 0 <= i <= |fifos| ==> Chain()[i] == c[i + 1] && c[i + 1].pkgs == old(c[i + 1].pkgs);
        assert fifos != [] ==> out == Chain()[0];
      }
    }

    method CommitFirst()
      requires Core() && out.next_size != 0
      modifies out, disk
      ensures Core() && Chain() == old(Chain()) && old(Queue()) != [] && Queue() == old(Queue())[1..]
      ensures old(out.pkgs) != [] && out.pkgs == old(out.pkgs)[1..]
      ensures out.next_size == 0 <==> out.pkgs == []
      ensures forall i :: 0 <= i < |fifos| ==>
                fifos[i].pkgs == old(fifos[i].pkgs) && fifos[i].free_space == old(fifos[i].free_space)
    {
      hide Layout, Parse, DiskQueue, File.Valid, Ids, Files, At;
      ghost var f := disk.files;
      CommitReady();
      out.PopCommit();
      out.Parsed();
      out.NextMeans();
      FirstWritten();
      AtIs(disk.files, out.id, out.pkgs);
      QueueCommit(f, disk.files, out.id, max_id + 1);
    }

    lemma CommitReady()
      requires Linked() && out.next_size != 0
      ensures out.Valid() && out.disk == disk && out.id in disk.files && out.pkgs != [] && At(disk.files, out.id) == out.pkgs
      ensures out.id <= max_id && forall j: nat :: j < out.id ==> j !in disk.files
      ensures forall i :: 0 < i <= |fifos| ==> Chain()[i] != out
      ensures forall i :: 0 <= i < |fifos| ==> fifos[i] == Chain()[i + 1]
    {
      hide Layout, Parse, File.Valid, Ids;
      IdsUpTo(Chain());
      assert Chain()[0].Valid();
      InIds(Chain(), 0);
      out.Parsed();
      out.NextMeans();
    }

    /** The drained first file goes; the next one is opened when it is not open yet. */
    method Shift()
      requires Core() && out.pkgs == [] && out != in_
      modifies this, out, fifos, disk
      ensures Core() && Queue() == old(Queue()) && max_id == old(max_id)
      ensures fifos == old(fifos)[1..] && out == old(fifos)[0]
      ensures forall i :: 0 <= i < |old(fifos)| ==>
                old(fifos)[i].pkgs == old(fifos[i].pkgs) && old(fifos)[i].free_space == old(fifos[i].free_space)
    {
      hide Layout, Parse, DiskQueue, File.Valid, Ids, Files;
      Distinct();
      Unlink();
      OpenOut();
    }

    method OpenOut()
      requires Files(Chain()) && in_ == Chain()[|fifos|] && in_.id == max_id && in_.open
      modifies out`open
      ensures Linked()
    {
      hide Layout, Parse, DiskQueue, File.Valid, Ids;
      assert Chain()[0].Valid();
      if !out.open {
        out.Open();
      }
    }

    method Unlink()
      requires Files(Chain()) && Chain()[|fifos|].id == max_id && out.pkgs == [] && fifos != []
      modifies this`out, this`fifos, disk
      ensures Files(Chain()) && Queue() == old(Queue())
      ensures fifos == old(fifos)[1..] && out == old(fifos)[0]
    {
      hide Layout, Parse, DiskQueue, File.Valid, Ids;
      ghost var c := Chain();
      assert c[0].Valid();
      out.Parsed();
      IdsUpTo(c);
      QueueDrop(disk.files, out.id, max_id + 1);
      RestWithoutFirst(c);
      label Before:
      disk.files := disk.files - {out.id};
      MapMinus(old(disk.files), c[0].id);
      forall i | 0 < i < |c| ensures c[i].Valid() {
        InIds(c, i);
        assert c[0].id < c[i].id;
        c[i].Kept@Before();
      }
      out := fifos[0];
      fifos := fifos[1..];
      assert Chain() == c[1..];
    }

    /** The queue is made of the packages of the chain, file by file. */
    lemma QueueIsChain()
      requires Linked()
      ensures Queue() == Flat(Chain())
    {
      hide Layout, Parse, DiskQueue, File.Valid;
      var c := Chain();
      forall i | 0 <= i < |c| ensures c[i].id in disk.files && At(disk.files, c[i].id) == c[i].pkgs {
        InIds(c, i);
        c[i].Parsed();
      }
      IdsUpTo(c);
      QueueIsFlat(c, disk.files, max_id + 1);
    }

    /** siridb_fifo_has_data is right for a live fifo.  It is blind for one that is not: it says no,
        and packages are waiting exactly when one of the files behind the first has some. */
    lemma HasData()
      requires Core()
      ensures Live() ==> (out.next_size != 0 <==> Queue() != [])
      ensures !Live() ==> out.next_size == 0 && (Queue() != [] <==> exists i :: 0 <= i < |fifos| && fifos[i].pkgs != [])
    {
      hide Layout, Parse, DiskQueue, File.Valid;
      assert Chain()[0].Valid();
      out.NextMeans();
      QueueIsChain();
      FlatEmpty(Chain());
      assert forall i :: 0 <= i < |fifos| ==> fifos[i] == Chain()[i + 1];
    }

    lemma AllWellFormed()
      requires Linked() || Detached()
      ensures forall k :: k in disk.files ==> k <= max_id && WellFormed(disk.files[k])
    {
      hide Layout, Parse, Ids, WellFormed;
      var c := if Linked() then Chain() else fifos + [in_];
      assert c[|fifos|] == in_;
      IdsUpTo(c);
      forall k | k in disk.files ensures WellFormed(disk.files[k]) {
        OneWellFormed(c, k);
      }
    }

    lemma OneWellFormed(c: seq<File>, k: nat)
      requires Files(c) && k in disk.files
      ensures WellFormed(disk.files[k])
    {
      hide Layout, Parse;
      var i :| 0 <= i < |c| && c[i].id == k;
      var x := c[i];
      assert x.Valid() && x.low <= UINT32_MAX && Layout(disk.files[k], x.low, x.pkgs);
    }

    /** siridb_fifo_close, which asserts that the fifo is open. */
    method Close()
      requires Core()
      modifies in_`open, out`open
      ensures !in_.open && !out.open && Files(Chain()) && Queue() == old(Queue())
    {
      hide Layout, Parse, DiskQueue, Ids;
      var c := Chain();
      assert c[0].Valid() && c[|fifos|].Valid();
      in_.Close();
      if out.open {
        out.Close();
      }
    }

    /** siridb_fifo_open */
    method Open()
      requires Files(Chain()) && in_ == Chain()[|fifos|] && in_.id == max_id
      modifies in_`open, out`open
      ensures Linked() && Queue() == old(Queue())
    {
      hide Layout, Parse, DiskQueue, Ids;
      var c := Chain();
      assert c[0].Valid() && c[|fifos|].Valid();
      in_.Open();
      if !out.open {
        out.Open();
      }
    }
  }

  // ---- starting from a directory ----

  /** A file as some fifo may have left it. */
  ghost predicate WellFormed(b: Bytes) {
    exists l: nat, ps :: l <= UINT32_MAX && Layout(b, l, ps)
  }

  predicate Increasing(names: seq<nat>) {
    forall i, j :: 0 <= i < j < |names| ==> names[i] < names[j]
  }

  /** The files that have been taken from the directory so far. */
  ghost predicate Found(fs: seq<File>, d: Disk)
    reads fs, d
  {
    && (forall i :: 0 <= i < |fs| ==> fs[i].disk == d && fs[i].Valid() && fs[i].pkgs != [])
    && (forall i, j :: 0 <= i < j < |fs| ==> fs[i].id < fs[j].id)
  }

  /** The first n ids have been looked at: an empty file is gone, any other one is in the list. */
  ghost predicate Scanned(fs: seq<File>, d: Disk, names: seq<nat>, n: nat)
    requires n <= |names|
    reads fs, d
  {
    && Found(fs, d)
    && d.files.Keys == Ids(fs) + Rest(names, n)
    && forall k :: k in Ids(fs) ==> n > 0 && k <= names[n - 1]
  }

  function Rest(names: seq<nat>, n: nat): set<nat>
    requires n <= |names|
  {
    set i | n <= i < |names| :: names[i]
  }

  lemma RestStep(names: seq<nat>, n: nat)
    requires n < |names| && Increasing(names)
    ensures Rest(names, n) == {names[n]} + Rest(names, n + 1)
    ensures names[n] !in Rest(names, n + 1)
    ensures n > 0 ==> names[n - 1] < names[n]
  {}

  /** One step of FIFO_init. */
  method Take(d: Disk, fs: seq<File>, names: seq<nat>, n: nat, ghost bound: nat) returns (r: seq<File>)
    requires n < |names| && Increasing(names) && Scanned(fs, d, names, n)
    requires forall k :: k in d.files ==> WellFormed(d.files[k])
    modifies d
    ensures Scanned(r, d, names, n + 1)
    ensures forall k :: k in d.files ==> k in old(d.files) && d.files[k] == old(d.files)[k]
    ensures DiskQueue(d.files, bound) == old(DiskQueue(d.files, bound))
    ensures forall f :: f in r ==> f in fs || fresh(f)
  {
    hide Layout, Parse, DiskQueue, File.Valid, Ids, Rest;
    var k := names[n];
    RestStep(names, n);
    assert WellFormed(d.files[k]);
    ghost var l: nat, ps :| l <= UINT32_MAX && Layout(d.files[k], l, ps);
    ParseLayout(d.files[k], l, ps);
    AtIs(d.files, k, ps);
    MapMinus(d.files, k);
    assert k !in Ids(fs);
    assert d.files.Keys == Ids(fs) + {k} + Rest(names, n + 1);
    label Before:
    var f := Reopen(d, k, l, ps);
    forall i | 0 <= i < |fs| ensures fs[i].Valid() && fs[i].id < k {
      InIds(fs, i);
      fs[i].Kept@Before();
    }
    if f == null {
      QueueDrop(old(d.files), k, bound);
      r := fs;
      assert d.files.Keys == Ids(fs) + Rest(names, n + 1);
    } else {
      IdsAppend(fs, f);
      r := fs + [f];
      assert Found(r, d);
      assert d.files.Keys == Ids(r) + Rest(names, n + 1);
    }
  }

  function Bound(names: seq<nat>): nat {
    if names == [] then 0 else names[|names| - 1] + 1
  }

  /** FIFO_init: the files of the directory in the order of their names. */
  method Scan(d: Disk, names: seq<nat>) returns (fs: seq<File>)
    requires Increasing(names) && d.files.Keys == Rest(names, 0)
    requires forall k :: k in d.files ==> WellFormed(d.files[k])
    modifies d
    ensures Scanned(fs, d, names, |names|)
    ensures DiskQueue(d.files, Bound(names)) == old(DiskQueue(d.files, Bound(names)))
    ensures forall g :: g in fs ==> fresh(g)
  {
    hide Layout, Parse, DiskQueue, File.Valid, Rest, WellFormed;
    fs := [];
    var n := 0;
    while n < |names|
      invariant n <= |names| && Scanned(fs, d, names, n)
      invariant forall k :: k in d.files ==> k in old(d.files) && d.files[k] == old(d.files)[k]
      invariant DiskQueue(d.files, Bound(names)) == DiskQueue(old(d.files), Bound(names))
      invariant forall g :: g in fs ==> fresh(g)
    {
      fs := Take(d, fs, names, n, Bound(names));
      n := n + 1;
    }
  }

  lemma ScannedAll(fs: seq<File>, d: Disk, names: seq<nat>)
    requires Scanned(fs, d, names, |names|) && Increasing(names)
    ensures d.files.Keys == Ids(fs) && Found(fs, d)
    ensures forall k :: k in d.files ==> k < Bound(names) && fs != [] && k <= fs[|fs| - 1].id
  {
    hide Layout, Parse, File.Valid;
    assert Rest(names, |names|) == {};
    if fs != [] {
      IdsUpTo(fs);
    }
  }

  /** siridb_fifo_new: a new file to write to follows the files found in the directory. */
  method Start(d: Disk, names: seq<nat>) returns (f: Fifo)
    requires Increasing(names) && d.files.Keys == Rest(names, 0)
    requires forall k :: k in d.files ==> WellFormed(d.files[k])
    modifies d
    ensures fresh(f) && f.disk == d && f.Valid() && f.Live() && f.in_.pkgs == []
    ensures f.max_id <= Bound(names) && forall x :: x in f.Chain() ==> fresh(x)
    ensures f.Queue() == old(DiskQueue(d.files, Bound(names)))
  {
    hide Layout, Parse, DiskQueue, File.Valid, Rest, WellFormed, Scanned, Increasing, Bound;
    var fs := Scan(d, names);
    ScannedAll(fs, d, names);
    assert fs != [] ==> fs[0] in fs;
    if fs != [] {
      InIds(fs, |fs| - 1);
    }
    f := Assemble(d, fs, Bound(names));
  }

  method Assemble(d: Disk, fs: seq<File>, ghost bound: nat) returns (f: Fifo)
    requires Found(fs, d) && d.files.Keys == Ids(fs)
    requires forall k :: k in d.files ==> k < bound && fs != [] && k <= fs[|fs| - 1].id
    modifies d, if fs == [] then {} else {fs[0]}
    ensures fresh(f) && f.disk == d && f.Valid() && f.Live() && f.in_.pkgs == []
    ensures f.max_id == (if fs == [] then 0 else fs[|fs| - 1].id + 1)
    ensures forall x :: x in f.Chain() ==> x in fs || fresh(x)
    ensures f.Queue() == old(DiskQueue(d.files, bound))
  {
    hide Layout, Parse, DiskQueue, File.Valid, Ids, Found;
    var max_id := if fs == [] then 0 else fs[|fs| - 1].id + 1;
    QueueGap(d.files, if bound < max_id then bound else max_id, if bound < max_id then max_id else bound);
    var g := NewLast(d, fs, max_id);
    f := Line(d, fs, g, max_id);
    f.OpenOut();
  }

  /** The first file is read, the last one is written. */
  method Line(d: Disk, fs: seq<File>, g: File, max_id: nat) returns (f: Fifo)
    requires Found(fs, d) && d.files.Keys == Ids(fs + [g])
    requires g.disk == d && g.Valid() && g.open && g.id == max_id && g.pkgs == [] && g.free_space == FFILE_DEFAULT_SIZE
    requires forall i :: 0 <= i < |fs| ==> fs[i].id < max_id
    ensures fresh(f) && f.disk == d && f.max_id == max_id && f.in_ == g && f.Chain() == fs + [g]
    ensures f.out == (if fs == [] then g else fs[0])
    ensures f.Files(f.Chain()) && f.Full() && f.Live()
  {
    hide Layout, Parse, File.Valid, Ids;
    var c := fs + [g];
    f := new Fifo(d, c[1..], g, c[0], max_id);
    assert f.Chain() == c;
  }

  method NewLast(d: Disk, fs: seq<File>, max_id: nat) returns (g: File)
    requires Found(fs, d) && d.files.Keys == Ids(fs)
    requires forall k :: k in d.files ==> k < max_id
    modifies d
    ensures fresh(g) && g.disk == d && g.Valid() && g.open && g.id == max_id && g.pkgs == [] && g.free_space == FFILE_DEFAULT_SIZE
    ensures Found(fs, d) && d.files.Keys == Ids(fs + [g])
    ensures forall i :: 0 <= i < |fs| ==> fs[i].id < max_id
    ensures DiskQueue(d.files, max_id + 1) == old(DiskQueue(d.files, max_id))
  {
    hide Layout, Parse, DiskQueue, File.Valid, Ids;
    ghost var old_files := d.files;
    forall i | 0 <= i < |fs| ensures fs[i].id in d.files {
      InIds(fs, i);
    }
    label Before:
    g := new File.Fresh(d, max_id);
    forall i | 0 <= i < |fs| ensures fs[i].Valid() {
      InIds(fs, i);
      fs[i].Kept@Before();
    }
    g.Parsed();
    IdsAppend(fs, g);
    QueueOfSame(old_files, d.files, max_id);
    AtIs(d.files, max_id, []);
    AtMeans(d.files, max_id);
  }

  /** A fifo that is stopped and started again holds the same packages in the same order, also one
      that had lost sight of some of them. */
  method Restart(f: Fifo, names: seq<nat>) returns (g: Fifo)
    requires (f.Core() || f.Detached()) && Increasing(names) && f.disk.files.Keys == Rest(names, 0)
    modifies f.disk
    ensures fresh(g) && g.disk == f.disk && g.Valid() && g.Live()
    ensures g.Queue() == old(f.Queue())
  {
    hide Layout, Parse, DiskQueue, Rest, Fifo.Files, WellFormed, Bound;
    f.AllWellFormed();
    LastName(names, f.disk.files, f.max_id + 1);
    g := Start(f.disk, names);
  }

  lemma LastName(names: seq<nat>, files: map<nat, Bytes>, n: nat)
    requires Increasing(names) && files.Keys == Rest(names, 0)
    requires forall k :: k in files ==> k < n
    ensures DiskQueue(files, n) == DiskQueue(files, Bound(names))
  {
    if names != [] {
      assert names[|names| - 1] in Rest(names, 0);
    }
    QueueGap(files, Bound(names), n);
  }

  // ---- an oversize package ----

  lemma {:induction false} FlatCount(c: seq<File>)
    requires forall i :: 0 <= i < |c| ==> c[i].pkgs != []
    ensures |Flat(c)| >= |c|
  {
    if c != [] {
      FlatCount(c[..|c| - 1]);
    }
  }

  /** A started fifo with one package: it is in the first file, and the new file is behind it. */
  lemma OneFound(f: Fifo, p: Bytes)
    requires f.Valid() && f.in_.pkgs == [] && f.Queue() == [p]
    ensures f.out.pkgs == [p] && f.fifos == [f.in_] && f.out != f.in_
  {
    hide Layout, Parse, DiskQueue, File.Valid, Ids;
    f.QueueIsChain();
    var c := f.Chain();
    assert c[|f.fifos|] == f.in_;
    var front := c[..|f.fifos|];
    assert Flat(c) == Flat(front) + [];
    FlatCount(front);
    assert f.fifos == [] ==> front == [];
    assert front[0] == f.out && |front| == 1;
    assert front[..0] == [] && Flat([]) == [] && Flat(front) == [] + f.out.pkgs;
    assert f.fifos[0] == c[1];
  }

  /** How a fifo stops being live: with p waiting in a file of an earlier run, a package larger than
      a file leaves the fresh file empty inside the chain, and the commit of p makes that file the
      first one.  The large package is waiting, and the fifo says that there is no data. */
  method Blind(p: Bytes, large: Bytes) returns (f: Fifo)
    requires IsPackage(p) && IsPackage(large) && |large| + 8 > 104857600
    ensures fresh(f) && fresh(f.disk) && fresh(f.out) && fresh(f.in_) && f.fifos == [f.in_]
    ensures f.Core() && f.max_id <= 2 && !f.Live() && f.Queue() == [large] && f.out.next_size == 0
    ensures f.in_.free_space == UINT32_SZ
  {
    hide Layout, Parse, DiskQueue, File.Valid, Ids, IsPackage;
    f := LeftWith(p);
    assert f.out in f.Chain() && forall x :: x in f.fifos ==> x in f.Chain();
    OneFound(f, p);
    f.Append(large);
    f.HasData();
    f.Commit();
    f.HasData();
  }

  /** A directory with one file of an earlier run in it. */
  lemma LeftBehind(f: File)
    requires f.Valid() && f.id == 0 && f.disk.files.Keys == {0}
    ensures WellFormed(f.disk.files[0]) && Increasing([0]) && f.disk.files.Keys == Rest([0], 0)
    ensures DiskQueue(f.disk.files, Bound([0])) == f.pkgs
  {
    hide Layout, Parse;
    var d := f.disk.files;
    assert f.low <= UINT32_MAX && Layout(d[f.id], f.low, f.pkgs);
    f.Parsed();
    RestStep([0], 0);
    assert Rest([0], 1) == {};
    AtIs(d, 0, f.pkgs);
    AtMeans(d, 0);
    EmptyQueue(d, 0);
  }

  /** A file with one package is left by an earlier run. */
  method LeftWith(p: Bytes) returns (f: Fifo)
    requires IsPackage(p)
    ensures fresh(f) && fresh(f.disk) && forall x :: x in f.Chain() ==> fresh(x)
    ensures f.Valid() && f.Live() && f.in_.pkgs == [] && f.Queue() == [p] && f.max_id <= 1
  {
    hide File.Valid, Layout, Parse, IsPackage, WellFormed, DiskQueue, Rest, Increasing, Fifo.Valid, Fifo.Core;
    var d := new Disk();
    var file := new File.WithPackage(d, 0, p);
    LeftBehind(file);
    f := Start(d, [0]);
  }

  /** What a fifo that is not live does with a small package: it is handed out before the large one
      that came first. */
  method OutOfOrder(p: Bytes, large: Bytes, small: Bytes) returns (f: Fifo, r: Option<Bytes>)
    requires IsPackage(p) && IsPackage(large) && IsPackage(small) && |large| + 8 > 104857600
    ensures f.Detached() && f.Queue() == [large, small] && r == Some(small)
  {
    hide Layout, Parse, DiskQueue, Ids, IsPackage, Fifo.Core;
    f := Blind(p, large);
    f.Append(small);
    var c := f.fifos + [f.in_];
    assert c[|f.fifos|] == f.in_;
    f.out.NextMeans();
    r := f.out.Pop();
  }

  lemma RestWithoutFirst(c: seq<File>)
    requires |c| > 1 && forall i, j :: 0 <= i < j < |c| ==> c[i].id < c[j].id
    ensures Ids(c) - {c[0].id} == Ids(c[1..])
  {
    var d := c[1..];
    forall k ensures k in Ids(d) <==> k in Ids(c) - {c[0].id} {
      if k in Ids(c) && k != c[0].id {
        var i :| 0 <= i < |c| && c[i].id == k;
        assert d[i - 1].id == k;
      }
      if k in Ids(d) {
        var i :| 0 <= i < |d| && d[i].id == k;
        assert c[i + 1].id == k;
      }
    }
  }

  lemma PairWithoutFirst(a: File, b: File)
    requires a.id < b.id
    ensures Ids([a, b]) - {a.id} == Ids([b])
  {
    assert [a, b][0] == a && [a, b][1] == b && [b][0] == b;
    InIds([a, b], 1);
    InIds([b], 0);
  }
}
