/** What a write-back sector cache stands for: one flat disk per root device. */
module Flat {
  const SECTOR_SIZE := 512

  type Sector = s: seq<bv8> | |s| == SECTOR_SIZE witness seq(SECTOR_SIZE, _ => 0)
  type Disks = map<nat, seq<Sector>>

  function ZeroSector(): (z: Sector)
    ensures forall i :: 0 <= i < SECTOR_SIZE ==> z[i] == 0
  {
    seq(SECTOR_SIZE, _ => 0)
  }

  /** A buffer; `dev` is -1 while it caches nothing. */
  datatype Buf = Buf(dev: int, lba: nat, refs: nat, dirty: bool, data: Sector)

  predicate Caches(b: Buf, root: nat, lba: nat) { b.dev == root && b.lba == lba }

  ghost predicate Cached(bufs: seq<Buf>, root: nat, lba: nat) {
    exists i :: 0 <= i < |bufs| && Caches(bufs[i], root, lba)
  }

  ghost predicate InRange(disks: Disks, root: nat, lba: nat) { root in disks && lba < |disks[root]| }

  /** The content of a sector: the cached copy if there is one. */
  ghost function Look(bufs: seq<Buf>, disks: Disks, root: nat, lba: nat): Sector
    requires InRange(disks, root, lba)
  {
    if Cached(bufs, root, lba) then
      var i :| 0 <= i < |bufs| && Caches(bufs[i], root, lba);
      bufs[i].data
    else disks[root][lba]
  }

  ghost function Seen(bufs: seq<Buf>, disks: Disks): (v: Disks)
    ensures v.Keys == disks.Keys
    ensures forall r :: r in disks ==> |v[r]| == |disks[r]|
    ensures forall r, l :: r in disks && 0 <= l < |disks[r]| ==> v[r][l] == Look(bufs, disks, r, l)
  {
    map r | r in disks :: seq(|disks[r]|, l requires 0 <= l < |disks[r]| => Look(bufs, disks, r, l))
  }

  /** Each sector is cached at most once. */
  ghost predicate OneCopy(bufs: seq<Buf>) {
    forall i, j :: 0 <= i < j < |bufs| && bufs[i].dev >= 0 && bufs[i].dev == bufs[j].dev ==> bufs[i].lba != bufs[j].lba
  }

  ghost predicate Placed(b: Buf, disks: Disks) {
    && (b.dev >= 0 ==> InRange(disks, b.dev, b.lba))
    && (b.dev < 0 ==> b.dev == -1 && !b.dirty && b.refs == 0)
  }

  /** A buffer that is not marked dirty agrees with the disk. */
  ghost predicate Clean(b: Buf, disks: Disks)
    requires Placed(b, disks)
  {
    b.dev >= 0 && !b.dirty ==> b.data == disks[b.dev][b.lba]
  }

  /** The cache invariant, with one buffer possibly still to be filled. */
  ghost predicate Coherent(bufs: seq<Buf>, disks: Disks, pending: int) {
    && OneCopy(bufs)
    && (forall i :: 0 <= i < |bufs| ==> Placed(bufs[i], disks))
    && (forall i :: 0 <= i < |bufs| && i != pending ==> Clean(bufs[i], disks))
  }

  lemma LookAt(bufs: seq<Buf>, disks: Disks, i: nat)
    requires OneCopy(bufs) && i < |bufs| && bufs[i].dev >= 0 && InRange(disks, bufs[i].dev, bufs[i].lba)
    ensures Look(bufs, disks, bufs[i].dev, bufs[i].lba) == bufs[i].data
  {
    assert Caches(bufs[i], bufs[i].dev, bufs[i].lba);
  }

  function SetAt(row: seq<Sector>, lba: nat, data: Sector): (r: seq<Sector>)
    requires lba < |row|
    ensures |r| == |row| && forall l :: 0 <= l < |r| ==> r[l] == if l == lba then data else row[l]
  {
    var r: seq<Sector> := row[lba := data];
    r
  }

  function Put(v: Disks, root: nat, lba: nat, data: Sector): Disks
    requires root in v && lba < |v[root]|
  {
    v[root := SetAt(v[root], lba, data)]
  }

  /** Same disks, and at most the content of one sector differs. */
  ghost predicate Beside(v: Disks, w: Disks, root: nat, lba: nat) {
    && w.Keys == v.Keys && (forall r :: r in v ==> |w[r]| == |v[r]|)
    && forall r: nat, l: nat :: InRange(v, r, l) && (r != root || l != lba) ==> w[r][l] == v[r][l]
  }

  ghost predicate SameShape(v: Disks, w: Disks) {
    w.Keys == v.Keys && (forall r :: r in v ==> |w[r]| == |v[r]|)
  }

  /** Two states that agree everywhere except possibly on one sector. */
  lemma SeenExcept(bufs: seq<Buf>, disks: Disks, bufs': seq<Buf>, disks': Disks, root: nat, lba: nat)
    requires InRange(disks, root, lba) && disks'.Keys == disks.Keys
    requires forall r :: r in disks ==> |disks'[r]| == |disks[r]|
    requires forall r, l :: InRange(disks, r, l) && (r != root || l != lba) ==>
      Look(bufs', disks', r, l) == Look(bufs, disks, r, l)
    ensures Seen(bufs', disks') == Put(Seen(bufs, disks), root, lba, Look(bufs', disks', root, lba))
  {
    hide Look;
    var v, w := Seen(bufs, disks), Seen(bufs', disks');
    forall r | r in disks ensures w[r] == Put(v, root, lba, Look(bufs', disks', root, lba))[r] {
      forall l | 0 <= l < |disks[r]| ensures w[r][l] == Put(v, root, lba, Look(bufs', disks', root, lba))[r][l] {
        assert InRange(disks, r, l);
      }
    }
  }

  /** Rewriting the buffer of one sector changes the view of no other. */
  lemma LookOther(bufs: seq<Buf>, disks: Disks, k: nat, b: Buf, r: nat, l: nat)
    requires k < |bufs| && OneCopy(bufs) && OneCopy(bufs[k := b]) && InRange(disks, r, l)
    requires !Caches(bufs[k], r, l) && !Caches(b, r, l)
    ensures Look(bufs[k := b], disks, r, l) == Look(bufs, disks, r, l)
  {
    if Cached(bufs, r, l) {
      var i :| 0 <= i < |bufs| && Caches(bufs[i], r, l);
      assert Caches(bufs[k := b][i], r, l);
      LookAt(bufs, disks, i);
      LookAt(bufs[k := b], disks, i);
    } else {
      assert forall i :: 0 <= i < |bufs| && i != k ==> bufs[k := b][i] == bufs[i] && !Caches(bufs[i], r, l);
    }
  }

  lemma OneCopyUpdate(bufs: seq<Buf>, k: nat, b: Buf)
    requires OneCopy(bufs) && k < |bufs|
    requires b.dev < 0 || Caches(bufs[k], b.dev, b.lba) || !Cached(bufs, b.dev, b.lba)
    ensures OneCopy(bufs[k := b])
  {
    if b.dev >= 0 {
      assert forall i :: 0 <= i < |bufs| && i != k ==> !Caches(bufs[i], b.dev, b.lba);
    }
  }

  /** Changing a buffer in place: its sector reads as the new data. */
  lemma Rewrite(bufs: seq<Buf>, disks: Disks, k: nat, b: Buf)
    requires Coherent(bufs, disks, k) && k < |bufs| && bufs[k].dev >= 0
    requires b.dev == bufs[k].dev && b.lba == bufs[k].lba
    ensures InRange(disks, b.dev, b.lba) && Coherent(bufs[k := b], disks, k)
    ensures b.dirty || b.data == disks[b.dev][b.lba] ==> Coherent(bufs[k := b], disks, -1)
    ensures Seen(bufs[k := b], disks) == Put(Seen(bufs, disks), b.dev, b.lba, b.data)
  {
    hide Look, Seen;
    assert Placed(bufs[k], disks);
    OneCopyUpdate(bufs, k, b);
    forall r, l | InRange(disks, r, l) && (r != b.dev || l != b.lba)
      ensures Look(bufs[k := b], disks, r, l) == Look(bufs, disks, r, l)
    {
      LookOther(bufs, disks, k, b, r, l);
    }
    SeenExcept(bufs, disks, bufs[k := b], disks, b.dev, b.lba);
    LookAt(bufs[k := b], disks, k);
  }

  /** Touching only the bookkeeping of a buffer is invisible. */
  lemma Remark(bufs: seq<Buf>, disks: Disks, k: nat, b: Buf)
    requires Coherent(bufs, disks, -1) && k < |bufs| && bufs[k].dev >= 0
    requires b == bufs[k].(refs := b.refs, dirty := b.dirty) && (bufs[k].dirty ==> b.dirty)
    ensures Coherent(bufs[k := b], disks, -1) && Seen(bufs[k := b], disks) == Seen(bufs, disks)
  {
    hide Look, Seen;
    assert Placed(bufs[k], disks) && Clean(bufs[k], disks);
    Rewrite(bufs, disks, k, b);
    PutSame(bufs, disks, k);
  }

  lemma PutSame(bufs: seq<Buf>, disks: Disks, k: nat)
    requires OneCopy(bufs) && k < |bufs| && bufs[k].dev >= 0 && InRange(disks, bufs[k].dev, bufs[k].lba)
    ensures Put(Seen(bufs, disks), bufs[k].dev, bufs[k].lba, bufs[k].data) == Seen(bufs, disks)
  {
    hide Look;
    LookAt(bufs, disks, k);
    var v := Seen(bufs, disks);
    assert SetAt(v[bufs[k].dev], bufs[k].lba, bufs[k].data) == v[bufs[k].dev];
  }

  /** Whatever reaches the disk under a cached sector, the view is the copy. */
  lemma DiskWrite(bufs: seq<Buf>, disks: Disks, k: nat, data: Sector, dirty: bool)
    requires Coherent(bufs, disks, -1) && k < |bufs| && bufs[k].dev >= 0 && (dirty || data == bufs[k].data)
    ensures InRange(disks, bufs[k].dev, bufs[k].lba)
    ensures var d := Put(disks, bufs[k].dev, bufs[k].lba, data);
      && Coherent(bufs[k := bufs[k].(dirty := dirty)], d, -1)
      && Seen(bufs[k := bufs[k].(dirty := dirty)], d) == Seen(bufs, disks)
  {
    hide Look, Seen;
    assert Placed(bufs[k], disks) && Clean(bufs[k], disks);
    var root, lba, b := bufs[k].dev, bufs[k].lba, bufs[k].(dirty := dirty);
    var d, next := Put(disks, root, lba, data), bufs[k := b];
    OneCopyUpdate(bufs, k, b);
    forall i | 0 <= i < |next| ensures Placed(next[i], d) && Clean(next[i], d) {
      assert Placed(bufs[i], disks) && Clean(bufs[i], disks);
      if i != k && bufs[i].dev == root { assert bufs[i].lba != lba; }
    }
    forall r, l | InRange(disks, r, l) && (r != root || l != lba)
      ensures Look(next, d, r, l) == Look(bufs, disks, r, l)
    {
      LookOther(bufs, disks, k, b, r, l);
      LookDisk(next, disks, d, r, l);
    }
    SeenExcept(bufs, disks, next, d, root, lba);
    LookAt(next, d, k);
    PutSame(bufs, disks, k);
  }

  lemma LookDisk(bufs: seq<Buf>, disks: Disks, d: Disks, r: nat, l: nat)
    requires OneCopy(bufs) && InRange(disks, r, l) && InRange(d, r, l) && d[r][l] == disks[r][l]
    ensures Look(bufs, d, r, l) == Look(bufs, disks, r, l)
  {
    if Cached(bufs, r, l) {
      var i :| 0 <= i < |bufs| && Caches(bufs[i], r, l);
      LookAt(bufs, disks, i);
      LookAt(bufs, d, i);
    }
  }

  /** Dropping a buffer that agrees with the disk is invisible. */
  lemma Evict(bufs: seq<Buf>, disks: Disks, k: nat)
    requires Coherent(bufs, disks, -1) && k < |bufs| && bufs[k].dev >= 0 && !bufs[k].dirty && bufs[k].refs == 0
    ensures Coherent(bufs[k := bufs[k].(dev := -1)], disks, -1)
    ensures Seen(bufs[k := bufs[k].(dev := -1)], disks) == Seen(bufs, disks)
    ensures !Cached(bufs[k := bufs[k].(dev := -1)], bufs[k].dev, bufs[k].lba)
  {
    hide Look, Seen;
    assert Placed(bufs[k], disks) && Clean(bufs[k], disks);
    var root, lba, b := bufs[k].dev, bufs[k].lba, bufs[k].(dev := -1);
    var next := bufs[k := b];
    OneCopyUpdate(bufs, k, b);
    forall r, l | InRange(disks, r, l) && (r != root || l != lba)
      ensures Look(next, disks, r, l) == Look(bufs, disks, r, l)
    {
      LookOther(bufs, disks, k, b, r, l);
    }
    assert !Cached(next, root, lba) by { Gone(bufs, k, root, lba); }
    SeenExcept(bufs, disks, next, disks, root, lba);
    LookMiss(next, disks, root, lba);
    PutSame(bufs, disks, k);
  }

  lemma Gone(bufs: seq<Buf>, k: nat, root: nat, lba: nat)
    requires OneCopy(bufs) && k < |bufs| && Caches(bufs[k], root, lba)
    ensures !Cached(bufs[k := bufs[k].(dev := -1)], root, lba)
  {
  }

  lemma LookMiss(bufs: seq<Buf>, disks: Disks, root: nat, lba: nat)
    requires InRange(disks, root, lba) && !Cached(bufs, root, lba)
    ensures Look(bufs, disks, root, lba) == disks[root][lba]
  {
  }

  /** Filling an empty buffer: its sector reads as what was put there. */
  lemma Load(bufs: seq<Buf>, disks: Disks, k: nat, root: nat, lba: nat, data: Sector)
    requires Coherent(bufs, disks, -1) && k < |bufs| && bufs[k].dev < 0 && InRange(disks, root, lba)
    requires !Cached(bufs, root, lba)
    ensures var next := bufs[k := Buf(root, lba, 1, false, data)];
      && Coherent(next, disks, k) && Seen(next, disks) == Put(Seen(bufs, disks), root, lba, data)
      && (data == disks[root][lba] ==> Coherent(next, disks, -1) && Seen(next, disks) == Seen(bufs, disks))
  {
    hide Look, Seen;
    var b := Buf(root, lba, 1, false, data);
    var next := bufs[k := b];
    OneCopyUpdate(bufs, k, b);
    forall r, l | InRange(disks, r, l) && (r != root || l != lba)
      ensures Look(next, disks, r, l) == Look(bufs, disks, r, l)
    {
      LookOther(bufs, disks, k, b, r, l);
    }
    SeenExcept(bufs, disks, next, disks, root, lba);
    LookAt(next, disks, k);
    LookMiss(bufs, disks, root, lba);
    var v := Seen(bufs, disks);
    assert data == disks[root][lba] ==> SetAt(v[root], lba, data) == v[root];
  }

  // ----- runs of sectors -----

  function PutAll(v: Disks, root: nat, lba: nat, data: seq<Sector>): (w: Disks)
    requires root in v && lba + |data| <= |v[root]|
    ensures w.Keys == v.Keys && forall r :: r in v ==> |w[r]| == |v[r]|
  {
    if data == [] then v
    else Put(PutAll(v, root, lba, data[..|data| - 1]), root, lba + |data| - 1, data[|data| - 1])
  }

  /** A write changes exactly its range. */
  lemma {:induction false} PutAllAt(v: Disks, root: nat, lba: nat, data: seq<Sector>, r: nat, l: nat)
    requires root in v && lba + |data| <= |v[root]| && InRange(v, r, l)
    ensures PutAll(v, root, lba, data)[r][l] == if r == root && lba <= l < lba + |data| then data[l - lba] else v[r][l]
  {
    if data != [] { PutAllAt(v, root, lba, data[..|data| - 1], r, l); }
  }

  // ----- bytes -----

  ghost function ByteAt(v: Disks, root: nat, offset: nat): bv8
    requires InRange(v, root, offset / SECTOR_SIZE)
  {
    v[root][offset / SECTOR_SIZE][offset % SECTOR_SIZE]
  }

  /** When every buffer of a device is clean the disk is the view. */
  lemma AllClean(bufs: seq<Buf>, disks: Disks, root: nat)
    requires Coherent(bufs, disks, -1) && root in disks
    requires forall i :: 0 <= i < |bufs| && bufs[i].dev == root ==> !bufs[i].dirty
    ensures Seen(bufs, disks)[root] == disks[root]
  {
    forall l | 0 <= l < |disks[root]| ensures Look(bufs, disks, root, l) == disks[root][l] {
      if Cached(bufs, root, l) {
        var i :| 0 <= i < |bufs| && Caches(bufs[i], root, l);
        LookAt(bufs, disks, i);
        assert Placed(bufs[i], disks) && Clean(bufs[i], disks);
      }
    }
  }

  /** `w` is `v` with `data` written at a byte offset of one disk. */
  ghost predicate Wrote(v: Disks, w: Disks, root: nat, offset: nat, data: seq<bv8>) {
    && SameShape(v, w)
    && forall r: nat, o: nat :: InRange(v, r, o / SECTOR_SIZE) ==>
         ByteAt(w, r, o) == if r == root && offset <= o < offset + |data| then data[o - offset] else ByteAt(v, r, o)
  }

  lemma WroteNothing(v: Disks, root: nat, offset: nat)
    ensures Wrote(v, v, root, offset, [])
  {
  }

  lemma WroteMore(v: Disks, u: Disks, w: Disks, root: nat, offset: nat, x: seq<bv8>, y: seq<bv8>)
    requires Wrote(v, u, root, offset, x) && Wrote(u, w, root, offset + |x|, y)
    ensures Wrote(v, w, root, offset, x + y)
  {
    hide ByteAt;
    forall r: nat, o: nat | InRange(v, r, o / SECTOR_SIZE)
      ensures InRange(w, r, o / SECTOR_SIZE)
      ensures ByteAt(w, r, o) == if r == root && offset <= o < offset + |x + y| then (x + y)[o - offset]
        else ByteAt(v, r, o)
    {
      assert InRange(u, r, o / SECTOR_SIZE);
    }
  }

  function Patch(s: Sector, at: nat, bytes: seq<bv8>): (p: Sector)
    requires at + |bytes| <= SECTOR_SIZE
  {
    s[..at] + bytes + s[at + |bytes|..]
  }

  /** Patching part of one sector writes exactly those bytes. */
  lemma PatchWrote(v: Disks, root: nat, offset: nat, bytes: seq<bv8>)
    requires InRange(v, root, offset / SECTOR_SIZE) && offset % SECTOR_SIZE + |bytes| <= SECTOR_SIZE
    ensures Wrote(v, Put(v, root, offset / SECTOR_SIZE,
                         Patch(v[root][offset / SECTOR_SIZE], offset % SECTOR_SIZE, bytes)),
      root, offset, bytes)
  {
    var s, at := offset / SECTOR_SIZE, offset % SECTOR_SIZE;
    var p := Patch(v[root][s], at, bytes);
    var w := Put(v, root, s, p);
    forall r: nat, o: nat | InRange(v, r, o / SECTOR_SIZE)
      ensures ByteAt(w, r, o) == if r == root && offset <= o < offset + |bytes| then bytes[o - offset]
        else ByteAt(v, r, o)
    {
      SameSector(offset, |bytes|, o);
    }
  }

  lemma SameSector(offset: nat, n: nat, o: nat)
    requires offset % SECTOR_SIZE + n <= SECTOR_SIZE
    ensures offset <= o < offset + n <==>
      o / SECTOR_SIZE == offset / SECTOR_SIZE && offset % SECTOR_SIZE <= o % SECTOR_SIZE < offset % SECTOR_SIZE + n
  {
  }
}
