/** Pipes and descriptor tables of src/proc/pipe.c and src/proc/fd.c: bounded
    first-in first-out buffers whose ends are counted by the descriptors that
    name them, across dup, dup2, fork, close and exit. */
module Pipes {
  const PIPES := 16
  const TABLES := 32
  const FDS := 256
  const RING := 4096
  const EBADF := -9
  const EINVAL := -22
  const ENFILE := -23
  const EMFILE := -24
  const EPIPE := -32
  /** A caller that has to yield and look again. */
  const AGAIN := -11

  // ----- the ring -----

  datatype Ring = Ring(buffer: seq<bv8>, readPos: nat, writePos: nat, size: nat)

  ghost predicate RingOk(r: Ring) {
    |r.buffer| == RING && r.readPos < RING && r.size <= RING && r.writePos == (r.readPos + r.size) % RING
  }

  /** The bytes in the ring, oldest first. */
  ghost function Held(r: Ring): (s: seq<bv8>)
    requires RingOk(r)
    ensures |s| == r.size && forall k :: 0 <= k < |s| ==> s[k] == r.buffer[(r.readPos + k) % RING]
  {
    seq(r.size, (k: nat) => r.buffer[(r.readPos + k) % RING])
  }

  function EmptyRing(): (r: Ring)
    ensures RingOk(r) && Held(r) == []
  {
    Ring(seq(RING, _ => 0), 0, 0, 0)
  }

  function Popped(r: Ring): Ring
    requires r.size > 0
  {
    r.(readPos := (r.readPos + 1) % RING, size := r.size - 1)
  }

  function Pushed(r: Ring, b: bv8): Ring
    requires r.writePos < |r.buffer|
  {
    r.(buffer := r.buffer[r.writePos := b], writePos := (r.writePos + 1) % RING, size := r.size + 1)
  }

  lemma PopOne(r: Ring)
    requires RingOk(r) && r.size > 0
    ensures RingOk(Popped(r)) && Held(r) == [r.buffer[r.readPos]] + Held(Popped(r))
  {
    var s, t := Held(r), [r.buffer[r.readPos]] + Held(Popped(r));
    forall k | 0 <= k < |s| ensures s[k] == t[k] {
      if k > 0 { Around(r.readPos + 1, k - 1); }
    }
  }

  lemma PushOne(r: Ring, b: bv8)
    requires RingOk(r) && r.size < RING
    ensures RingOk(Pushed(r, b)) && Held(Pushed(r, b)) == Held(r) + [b]
  {
    var s, t := Held(Pushed(r, b)), Held(r) + [b];
    forall k | 0 <= k < |s| ensures s[k] == t[k] {
      if k < r.size { Apart(r.readPos, k, r.size); }
    }
  }

  lemma Around(a: nat, k: nat)
    ensures (a % RING + k) % RING == (a + k) % RING
  {
  }

  lemma Apart(base: nat, k: nat, n: nat)
    requires k < n < RING
    ensures (base + k) % RING != (base + n) % RING
  {
  }

  /** The copy loop of pipe_read. */
  method Take(r: Ring, n: nat) returns (out: seq<bv8>, after: Ring)
    requires RingOk(r) && n <= r.size
    ensures RingOk(after) && |out| == n && Held(r) == out + Held(after)
  {
    hide Held, RingOk;
    out, after := [], r;
    for i := 0 to n
      invariant |out| == i && RingOk(after) && after.size == r.size - i && Held(r) == out + Held(after)
    {
      PopOne(after);
      InBuffer(after);
      assert out + ([after.buffer[after.readPos]] + Held(Popped(after)))
        == out + [after.buffer[after.readPos]] + Held(Popped(after));
      out := out + [after.buffer[after.readPos]];
      after := Popped(after);
    }
  }

  /** The copy loop of pipe_write. */
  method Add(r: Ring, data: seq<bv8>) returns (after: Ring)
    requires RingOk(r) && |data| <= RING - r.size
    ensures RingOk(after) && Held(after) == Held(r) + data
  {
    hide Held, RingOk;
    after := r;
    for i := 0 to |data|
      invariant RingOk(after) && after.size == r.size + i && Held(after) == Held(r) + data[..i]
    {
      PushOne(after, data[i]);
      InBuffer(after);
      assert Held(r) + data[..i] + [data[i]] == Held(r) + data[..i + 1];
      after := Pushed(after, data[i]);
    }
    assert data[..|data|] == data;
  }

  lemma InBuffer(r: Ring)
    requires RingOk(r)
    ensures r.readPos < |r.buffer| && r.writePos < |r.buffer|
  {
  }

  // ----- descriptors -----

  datatype Slot = Empty | Reader(pipe: nat) | Writer(pipe: nat) | Other

  datatype Pipe = Pipe(inUse: bool, readers: int, writers: int, ring: Ring)

  datatype Table = Table(used: bool, slots: seq<Slot>)

  ghost function CountIn(slots: seq<Slot>, v: Slot): nat {
    if slots == [] then 0 else CountIn(slots[..|slots| - 1], v) + if slots[|slots| - 1] == v then 1 else 0
  }

  /** How many descriptors, in all tables, are the given one. */
  ghost function Count(tables: seq<Table>, v: Slot): nat {
    if tables == [] then 0 else Count(tables[..|tables| - 1], v) + CountIn(tables[|tables| - 1].slots, v)
  }

  lemma {:induction false} CountInSet(slots: seq<Slot>, fd: nat, x: Slot, v: Slot)
    requires fd < |slots|
    ensures CountIn(slots[fd := x], v) == CountIn(slots, v) - (if slots[fd] == v then 1 else 0) + if x == v then 1
      else 0
  {
    var n := |slots| - 1;
    if fd == n {
      assert slots[fd := x][..n] == slots[..n];
    } else {
      CountInSet(slots[..n], fd, x, v);
      assert slots[fd := x][..n] == slots[..n][fd := x];
    }
  }

  lemma {:induction false} CountSet(tables: seq<Table>, t: nat, slots: seq<Slot>, v: Slot)
    requires t < |tables|
    ensures Count(tables[t := tables[t].(slots := slots)], v) == Count(tables, v) - CountIn(tables[t].slots,
                                                                                            v) + CountIn(slots, v)
  {
    var n := |tables| - 1;
    var now := tables[t := tables[t].(slots := slots)];
    if t == n {
      assert now[..n] == tables[..n];
    } else {
      CountSet(tables[..n], t, slots, v);
      assert now[..n] == tables[..n][t := tables[t].(slots := slots)];
    }
  }

  lemma {:induction false} CountUse(tables: seq<Table>, t: nat, used: bool, v: Slot)
    requires t < |tables|
    ensures Count(tables[t := tables[t].(used := used)], v) == Count(tables, v)
  {
    var n := |tables| - 1;
    var now := tables[t := tables[t].(used := used)];
    if t == n {
      assert now[..n] == tables[..n];
    } else {
      CountUse(tables[..n], t, used, v);
      assert now[..n] == tables[..n][t := tables[t].(used := used)];
    }
  }

  lemma {:induction false} CountHas(tables: seq<Table>, t: nat, fd: nat)
    requires t < |tables| && fd < |tables[t].slots|
    ensures Count(tables, tables[t].slots[fd]) > 0
  {
    CountSet(tables, t, tables[t].slots[fd := Gone(tables[t].slots[fd])], tables[t].slots[fd]);
    CountInSet(tables[t].slots, fd, Gone(tables[t].slots[fd]), tables[t].slots[fd]);
  }

  ghost function Gone(v: Slot): (g: Slot)
    ensures g != v
  {
    if v == Empty then Other else Empty
  }

  ghost function Set(tables: seq<Table>, t: nat, fd: nat, x: Slot): seq<Table>
    requires t < |tables| && fd < |tables[t].slots|
  {
    tables[t := tables[t].(slots := tables[t].slots[fd := x])]
  }

  lemma SetSame(tables: seq<Table>, t: nat, fd: nat)
    requires t < |tables| && fd < |tables[t].slots|
    ensures Set(tables, t, fd, tables[t].slots[fd]) == tables
  {
    assert tables[t].slots[fd := tables[t].slots[fd]] == tables[t].slots;
  }

  lemma SetTwice(tables: seq<Table>, t: nat, fd: nat, x: Slot, y: Slot)
    requires t < |tables| && fd < |tables[t].slots|
    ensures Set(Set(tables, t, fd, x), t, fd, y) == Set(tables, t, fd, y)
  {
    assert tables[t].slots[fd := x][fd := y] == tables[t].slots[fd := y];
  }

  lemma CountAfter(tables: seq<Table>, t: nat, fd: nat, x: Slot, v: Slot)
    requires t < |tables| && fd < |tables[t].slots|
    ensures Count(Set(tables, t, fd, x), v) == Count(tables, v) - (if tables[t].slots[fd] == v then 1 else 0) + if x
      == v then 1 else 0
  {
    CountSet(tables, t, tables[t].slots[fd := x], v);
    CountInSet(tables[t].slots, fd, x, v);
  }

  // ----- the invariant -----

  ghost predicate Tables(tables: seq<Table>) {
    && |tables| == TABLES
    && (forall t :: 0 <= t < TABLES ==> |tables[t].slots| == FDS)
    && (forall t, fd :: 0 <= t < TABLES && 0 <= fd < FDS ==> Sane(tables[t], tables[t].slots[fd]))
  }

  ghost predicate Sane(table: Table, s: Slot) {
    (table.used || s == Empty) && (s.Reader? || s.Writer? ==> s.pipe < PIPES)
  }

  /** Both counts of a pipe are the numbers of descriptors that name its ends,
      plus the ends still to be installed, and it is in use while there are any. */
  ghost predicate Fair(p: Pipe, tables: seq<Table>, i: nat, r: nat, w: nat) {
    && p.readers == Count(tables, Reader(i)) + r && p.writers == Count(tables, Writer(i)) + w
    && (p.inUse <==> p.readers > 0 || p.writers > 0)
  }

  /** Every pipe is fair; one of them may have ends not yet installed. */
  ghost predicate Owed(pipes: seq<Pipe>, tables: seq<Table>, i: nat, r: nat, w: nat) {
    |pipes| == PIPES && forall k :: 0 <= k < PIPES ==> Fair(pipes[k], tables, k, if k == i then r else 0,
                                                            if k == i then w else 0)
  }

  ghost predicate Balanced(pipes: seq<Pipe>, tables: seq<Table>) { Owed(pipes, tables, 0, 0, 0) }

  /** What went in is what came out and what is still inside. */
  ghost predicate Fifo(pipes: seq<Pipe>, sent: seq<seq<bv8>>, got: seq<seq<bv8>>) {
    && |pipes| == |sent| == |got| == PIPES
    && forall i :: 0 <= i < PIPES ==> RingOk(pipes[i].ring) && sent[i] == got[i] + Held(pipes[i].ring)
  }

  /** The pipe counts after one more or one fewer descriptor for an end. */
  function Adjusted(pipes: seq<Pipe>, v: Slot, delta: int): seq<Pipe>
    requires |pipes| == PIPES && (v.Reader? || v.Writer? ==> v.pipe < PIPES)
  {
    if v.Empty? || v.Other? then pipes else
    var p := pipes[v.pipe];
    var readers := if v.Reader? then Clamp(p.readers + delta) else p.readers;
    var writers := if v.Writer? then Clamp(p.writers + delta) else p.writers;
    pipes[v.pipe := p.(readers := readers, writers := writers, inUse := p.inUse && !(readers == 0 && writers == 0))]
  }

  function Clamp(n: int): int { if n < 0 then 0 else n }

  /** A descriptor goes away with its release hook. */
  lemma Released(pipes: seq<Pipe>, tables: seq<Table>, t: nat, fd: nat, i: nat, r: nat, w: nat)
    requires Owed(pipes, tables, i, r, w) && Tables(tables) && t < TABLES && fd < FDS
    ensures Sane(tables[t], tables[t].slots[fd]) && Tables(Set(tables, t, fd, Empty))
    ensures Owed(Adjusted(pipes, tables[t].slots[fd], -1), Set(tables, t, fd, Empty), i, r, w)
  {
    var v := tables[t].slots[fd];
    assert Sane(tables[t], v);
    SaneSet(tables, t, fd, Empty);
    CountHas(tables, t, fd);
    var now, after := Adjusted(pipes, v, -1), Set(tables, t, fd, Empty);
    forall k | 0 <= k < PIPES ensures Fair(now[k], after, k, if k == i then r else 0, if k == i then w else 0) {
      assert Fair(pipes[k], tables, k, if k == i then r else 0, if k == i then w else 0);
      CountAfter(tables, t, fd, Empty, Reader(k));
      CountAfter(tables, t, fd, Empty, Writer(k));
    }
  }

  /** A free slot takes over a descriptor that exists elsewhere, with its dup hook. */
  lemma Shared(pipes: seq<Pipe>, tables: seq<Table>, t: nat, fd: nat, from: nat, old_: nat)
    requires Balanced(pipes, tables) && Tables(tables) && t < TABLES && fd < FDS && from < TABLES && old_ < FDS
    requires tables[t].used && tables[t].slots[fd] == Empty
    ensures var v := tables[from].slots[old_];
      Sane(tables[from], v) && Tables(Set(tables, t, fd, v)) && Balanced(Adjusted(pipes, v, 1), Set(tables, t, fd, v))
  {
    var v := tables[from].slots[old_];
    assert Sane(tables[from], v);
    SaneSet(tables, t, fd, v);
    CountHas(tables, from, old_);
    forall k | 0 <= k < PIPES ensures Fair(Adjusted(pipes, v, 1)[k], Set(tables, t, fd, v), k, 0, 0) {
      assert Fair(pipes[k], tables, k, 0, 0);
      CountAfter(tables, t, fd, v, Reader(k));
      CountAfter(tables, t, fd, v, Writer(k));
    }
  }

  /** A free slot takes an end that was still to be installed, or some other file. */
  lemma Installed(pipes: seq<Pipe>, tables: seq<Table>, t: nat, fd: nat, v: Slot, i: nat, r: nat, w: nat)
    requires Tables(tables) && t < TABLES && fd < FDS && tables[t].used && tables[t].slots[fd] == Empty && i < PIPES
    requires v == Other || v == Reader(i) || v == Writer(i)
    requires Owed(pipes, tables, i, if v.Reader? then r + 1 else r, if v.Writer? then w + 1 else w)
    ensures Tables(Set(tables, t, fd, v)) && Owed(pipes, Set(tables, t, fd, v), i, r, w)
  {
    SaneSet(tables, t, fd, v);
    forall k | 0 <= k < PIPES
      ensures Fair(pipes[k], Set(tables, t, fd, v), k, if k == i then r else 0, if k == i then w else 0)
    {
      assert Fair(pipes[k], tables, k, if k == i then (if v.Reader? then r + 1 else r) else 0, if k == i then
        (if v.Writer? then w + 1 else w) else 0);
      CountAfter(tables, t, fd, v, Reader(k));
      CountAfter(tables, t, fd, v, Writer(k));
    }
  }

  /** An end that will not be installed is given up. */
  lemma GivenUp(pipes: seq<Pipe>, tables: seq<Table>, v: Slot, i: nat, r: nat, w: nat)
    requires i < PIPES && (v == Reader(i) || v == Writer(i))
    requires Owed(pipes, tables, i, if v.Reader? then r + 1 else r, if v.Writer? then w + 1 else w)
    ensures Owed(Adjusted(pipes, v, -1), tables, i, r, w)
  {
    var now := Adjusted(pipes, v, -1);
    forall k | 0 <= k < PIPES ensures Fair(now[k], tables, k, if k == i then r else 0, if k == i then w else 0) {
      assert Fair(pipes[k], tables, k, if k == i then (if v.Reader? then r + 1 else r) else 0, if k == i then
        (if v.Writer? then w + 1 else w) else 0);
    }
  }

  function NewPipe(): Pipe { Pipe(true, 1, 1, EmptyRing()) }

  /** A pipe slot that is not in use has no descriptors left. */
  lemma Claimed(pipes: seq<Pipe>, tables: seq<Table>, i: nat)
    requires Balanced(pipes, tables) && i < PIPES && !pipes[i].inUse
    ensures Count(tables, Reader(i)) == 0 && Count(tables, Writer(i)) == 0
    ensures Owed(pipes[i := NewPipe()], tables, i, 1, 1)
  {
    assert Fair(pipes[i], tables, i, 0, 0);
    var now := pipes[i := NewPipe()];
    forall k | 0 <= k < PIPES ensures Fair(now[k], tables, k, if k == i then 1 else 0, if k == i then 1 else 0) {
      assert Fair(pipes[k], tables, k, 0, 0);
    }
  }

  lemma Settled(pipes: seq<Pipe>, tables: seq<Table>, i: nat)
    requires Owed(pipes, tables, i, 0, 0)
    ensures Balanced(pipes, tables)
  {
    forall k | 0 <= k < PIPES ensures Fair(pipes[k], tables, k, 0, 0) {
      assert Fair(pipes[k], tables, k, if k == i then 0 else 0, if k == i then 0 else 0);
    }
  }

  lemma SaneSet(tables: seq<Table>, t: nat, fd: nat, x: Slot)
    requires Tables(tables) && t < TABLES && fd < FDS && (x == Empty || tables[t].used)
    requires (x.Reader? || x.Writer? ==> x.pipe < PIPES)
    ensures Tables(Set(tables, t, fd, x))
  {
    var now := Set(tables, t, fd, x);
    forall u, g | 0 <= u < TABLES && 0 <= g < FDS ensures Sane(now[u], now[u].slots[g]) {
      assert Sane(tables[u], tables[u].slots[g]);
    }
  }

  /** A pipe that some descriptor names is in use: its slot is not given away. */
  lemma NamedInUse(pipes: seq<Pipe>, tables: seq<Table>, t: nat, fd: nat)
    requires Balanced(pipes, tables) && Tables(tables) && t < TABLES && fd < FDS
    requires tables[t].slots[fd].Reader? || tables[t].slots[fd].Writer?
    ensures tables[t].slots[fd].pipe < PIPES && pipes[tables[t].slots[fd].pipe].inUse
  {
    assert Sane(tables[t], tables[t].slots[fd]);
    CountHas(tables, t, fd);
    assert Fair(pipes[tables[t].slots[fd].pipe], tables, tables[t].slots[fd].pipe, 0, 0);
  }

  /** Counts move, rings do not. */
  lemma RingsKept(pipes: seq<Pipe>, sent: seq<seq<bv8>>, got: seq<seq<bv8>>, v: Slot, delta: int)
    requires Fifo(pipes, sent, got) && (v.Reader? || v.Writer? ==> v.pipe < PIPES)
    ensures |pipes| == PIPES && Fifo(Adjusted(pipes, v, delta), sent, got)
  {
    hide Held, RingOk;
  }

  lemma RingSet(pipes: seq<Pipe>, sent: seq<seq<bv8>>, got: seq<seq<bv8>>, i: nat, p: Pipe, s: seq<bv8>, g: seq<bv8>)
    requires Fifo(pipes, sent, got) && i < PIPES && RingOk(p.ring) && s == g + Held(p.ring)
    ensures Fifo(pipes[i := p], sent[i := s], got[i := g])
  {
    hide Held, RingOk;
  }

  lemma RingMoved(pipes: seq<Pipe>, tables: seq<Table>, i: nat, ring: Ring)
    requires Balanced(pipes, tables) && i < PIPES
    ensures Balanced(pipes[i := pipes[i].(ring := ring)], tables)
  {
    var now := pipes[i := pipes[i].(ring := ring)];
    forall k | 0 <= k < PIPES ensures Fair(now[k], tables, k, 0, 0) {
      assert Fair(pipes[k], tables, k, 0, 0);
    }
  }

  class Descriptors {
    var pipes: seq<Pipe>
    var tables: seq<Table>
    /** Since a pipe was created: the bytes it accepted and those it delivered. */
    ghost var sent: seq<seq<bv8>>
    ghost var got: seq<seq<bv8>>

    ghost predicate Valid()
      reads this
    {
      Tables(tables) && Balanced(pipes, tables) && Fifo(pipes, sent, got)
    }

    constructor ()
      ensures Valid() && forall t :: 0 <= t < TABLES ==> !tables[t].used
    {
      pipes := seq(PIPES, _ => Pipe(false, 0, 0, EmptyRing()));
      tables := seq(TABLES, _ => Table(false, seq(FDS, _ => Empty)));
      sent, got := seq(PIPES, _ => []), seq(PIPES, _ => []);
      new;
      NoDescriptors(tables);
    }

    // ----- descriptors -----

    /** fd_put: the slot is cleared and the end told. */
    method Put(t: nat, fd: int, ghost i: nat, ghost r: nat, ghost w: nat)
      requires Tables(tables) && Owed(pipes, tables, i, r, w) && Fifo(pipes, sent, got) && t < TABLES
      modifies this`pipes, this`tables
      ensures Tables(tables) && Owed(pipes, tables, i, r, w) && Fifo(pipes, sent, got)
      ensures tables == if 0 <= fd < FDS then Set(old(tables), t, fd, Empty) else old(tables)
      ensures 0 <= fd < FDS ==> pipes == Adjusted(old(pipes), old(tables)[t].slots[fd], -1)
      ensures !(0 <= fd < FDS) ==> pipes == old(pipes)
    {
      hide Owed, Fifo;
      if fd < 0 || fd >= FDS { return; }
      var v := tables[t].slots[fd];
      Released(pipes, tables, t, fd, i, r, w);
      RingsKept(pipes, sent, got, v, -1);
      if v.Empty? {
        SetSame(tables, t, fd);
        return;
      }
      tables := tables[t := tables[t].(slots := tables[t].slots[fd := Empty])];
      pipes := Adjusted(pipes, v, -1);
    }

    /** close. */
    method Close(t: nat, fd: int)
      requires Valid() && t < TABLES
      modifies this`pipes, this`tables
      ensures Valid() && tables == if 0 <= fd < FDS then Set(old(tables), t, fd, Empty) else old(tables)
    {
      Put(t, fd, 0, 0, 0);
    }

    /** fd_alloc's search: the lowest free descriptor. */
    method FreeSlot(t: nat) returns (fd: int)
      requires Tables(tables) && t < TABLES
      ensures fd == EMFILE || (0 <= fd < FDS && tables[t].slots[fd] == Empty)
      ensures fd < 0 ==> forall g :: 0 <= g < FDS ==> tables[t].slots[g] != Empty
      ensures fd >= 0 ==> forall g :: 0 <= g < fd ==> tables[t].slots[g] != Empty
    {
      for g := 0 to FDS
        invariant forall h :: 0 <= h < g ==> tables[t].slots[h] != Empty
      {
        if tables[t].slots[g] == Empty { return g; }
      }
      return EMFILE;
    }

    /** fd_dup: the new descriptor names what the old one does; what it named
        before is released. */
    method Dup(t: nat, oldfd: int, newfd: int) returns (r: int)
      requires Valid() && t < TABLES && tables[t].used
      modifies this`pipes, this`tables
      ensures Valid()
      ensures r < 0 ==> r == EBADF && tables == old(tables) && pipes == old(pipes)
      ensures r < 0 ==> !(0 <= oldfd < FDS && 0 <= newfd < FDS && old(tables)[t].slots[oldfd] != Empty)
      ensures r >= 0 ==> 0 <= oldfd < FDS && 0 <= newfd < FDS && r == newfd && old(tables)[t].slots[oldfd] != Empty
      ensures r >= 0 ==> tables == Set(old(tables), t, newfd, old(tables)[t].slots[oldfd])
    {
      hide Balanced, Fifo;
      if oldfd < 0 || oldfd >= FDS || newfd < 0 || newfd >= FDS { return EBADF; }
      if tables[t].slots[oldfd] == Empty { return EBADF; }
      if oldfd == newfd {
        SetSame(tables, t, newfd);
        return newfd;
      }
      Close(t, newfd);
      var v := tables[t].slots[oldfd];
      Shared(pipes, tables, t, newfd, t, oldfd);
      RingsKept(pipes, sent, got, v, 1);
      tables := tables[t := tables[t].(slots := tables[t].slots[newfd := v])];
      pipes := Adjusted(pipes, v, 1);
      SetTwice(old(tables), t, newfd, Empty, v);
      return newfd;
    }

    /** A descriptor for a file that is not a pipe. */
    method OpenOther(t: nat) returns (fd: int)
      requires Valid() && t < TABLES && tables[t].used
      modifies this`tables
      ensures Valid() && (fd == EMFILE || 0 <= fd < FDS)
      ensures tables == if fd >= 0 then Set(old(tables), t, fd, Other) else old(tables)
      ensures forall g :: 0 <= g < (if fd < 0 then FDS else fd) ==> old(tables)[t].slots[g] != Empty
      ensures fd >= 0 ==> old(tables)[t].slots[fd] == Empty
    {
      hide Fifo, Owed;
      fd := FreeSlot(t);
      if fd < 0 { return; }
      Installed(pipes, tables, t, fd, Other, 0, 0, 0);
      tables := tables[t := tables[t].(slots := tables[t].slots[fd := Other])];
    }

    // ----- tables -----

    /** fd_table_create: an unused table, with no descriptors. */
    method CreateTable() returns (t: int)
      requires Valid()
      modifies this`tables
      ensures Valid() && -1 <= t < TABLES
      ensures t < 0 ==> tables == old(tables) && forall u :: 0 <= u < TABLES ==> tables[u].used
      ensures t >= 0 ==>
        !old(tables)[t].used && tables[t].used && (forall fd :: 0 <= fd < FDS ==> tables[t].slots[fd] == Empty)
      ensures t >= 0 ==> forall u :: 0 <= u < TABLES && u != t ==> tables[u] == old(tables)[u]
    {
      hide Fifo, Owed;
      for u := 0 to TABLES
        invariant tables == old(tables) && forall x :: 0 <= x < u ==> tables[x].used
      {
        if !tables[u].used {
          TableUse(pipes, tables, u, true);
          tables := tables[u := tables[u].(used := true)];
          return u;
        }
      }
      return -1;
    }

    /** fd_table_clone, at fork: every descriptor again, each with its dup hook. */
    method CloneTable(source: nat) returns (t: int)
      requires Valid() && source < TABLES && tables[source].used
      modifies this`tables, this`pipes
      ensures Valid() && -1 <= t < TABLES && (t < 0 ==> tables == old(tables) && pipes == old(pipes))
      ensures t < 0 ==> forall u :: 0 <= u < TABLES ==> old(tables)[u].used
      ensures t >= 0 ==> !old(tables)[t].used && tables[t] == old(tables)[source]
      ensures t >= 0 ==> forall u :: 0 <= u < TABLES && u != t ==> tables[u] == old(tables)[u]
    {
      hide Fifo, Owed;
      t := CreateTable();
      if t < 0 { return; }
      for fd := 0 to FDS
        invariant Valid() && tables[t].used && t != source
        invariant forall u :: 0 <= u < TABLES && u != t ==> tables[u] == old(tables)[u]
        invariant forall g :: 0 <= g < fd ==> tables[t].slots[g] == tables[source].slots[g]
        invariant forall g :: fd <= g < FDS ==> tables[t].slots[g] == Empty
      {
        var v := tables[source].slots[fd];
        if v == Empty { continue; }
        Shared(pipes, tables, t, fd, source, fd);
        RingsKept(pipes, sent, got, v, 1);
        tables := tables[t := tables[t].(slots := tables[t].slots[fd := v])];
        pipes := Adjusted(pipes, v, 1);
      }
      assert tables[t].slots == tables[source].slots;
    }

    /** fd_table_destroy, at exit: every descriptor is put. */
    method DestroyTable(t: nat)
      requires Valid() && t < TABLES
      modifies this`tables, this`pipes
      ensures Valid() && !tables[t].used && (forall fd :: 0 <= fd < FDS ==> tables[t].slots[fd] == Empty)
      ensures forall u :: 0 <= u < TABLES && u != t ==> tables[u] == old(tables)[u]
    {
      hide Fifo, Owed;
      for fd := 0 to FDS
        invariant Valid() && forall u :: 0 <= u < TABLES && u != t ==> tables[u] == old(tables)[u]
        invariant forall g :: 0 <= g < fd ==> tables[t].slots[g] == Empty
      {
        Close(t, fd);
      }
      TableUse(pipes, tables, t, false);
      tables := tables[t := tables[t].(used := false)];
    }

    // ----- pipes -----

    /** pipe_create: two descriptors for the ends of a pipe nobody names; after a
        failure no descriptor and no pipe is left over. */
    method CreatePipe(t: nat) returns (r: int, readFd: int, writeFd: int, i: int)
      requires Valid() && t < TABLES && tables[t].used
      modifies this
      ensures Valid() && r <= 0
      ensures r < 0 ==> tables == old(tables) && (r == ENFILE || r == EMFILE)
      ensures r < 0 ==> forall i :: 0 <= i < PIPES ==> pipes[i].inUse == old(pipes)[i].inUse
      ensures r == ENFILE ==> forall i :: 0 <= i < PIPES ==> pipes[i].inUse
      ensures r == EMFILE ==>
        forall g, h :: 0 <= g < h < FDS ==> old(tables)[t].slots[g] != Empty || old(tables)[t].slots[h] != Empty
      ensures r == 0 ==> 0 <= readFd < FDS && 0 <= writeFd < FDS && readFd != writeFd
      ensures r == 0 ==> old(tables)[t].slots[readFd] == Empty && old(tables)[t].slots[writeFd] == Empty
      ensures r == 0 ==> forall g :: 0 <= g < writeFd && g != readFd ==> old(tables)[t].slots[g] != Empty
      ensures r == 0 ==> forall g :: 0 <= g < readFd ==> old(tables)[t].slots[g] != Empty
      ensures |old(pipes)| == |old(sent)| == |old(got)| == |sent| == |got| == PIPES
      ensures forall k :: 0 <= k < PIPES && old(pipes)[k].inUse ==> sent[k] == old(sent)[k] && got[k] == old(got)[k]
      ensures r == 0 ==> 0 <= i < PIPES && !old(pipes)[i].inUse && sent[i] == [] && got[i] == []
      ensures r == 0 ==> tables == Set(Set(old(tables), t, readFd, Reader(i)), t, writeFd, Writer(i))
    {
      hide Fifo, Owed;
      Sizes(pipes, sent, got);
      i := AllocPipe();
      if i < 0 { return ENFILE, 0, 0, i; }
      readFd := FreeSlot(t);
      if readFd < 0 {
        GivenUp(pipes, tables, Reader(i), i, 0, 1);
        RingsKept(pipes, sent, got, Reader(i), -1);
        pipes := Adjusted(pipes, Reader(i), -1);
        DropWriter(i);
        return readFd, 0, 0, i;
      }
      Installed(pipes, tables, t, readFd, Reader(i), i, 0, 1);
      tables := tables[t := tables[t].(slots := tables[t].slots[readFd := Reader(i)])];
      writeFd := FreeSlot(t);
      if writeFd < 0 {
        SetTwice(old(tables), t, readFd, Reader(i), Empty);
        SetSame(old(tables), t, readFd);
        Put(t, readFd, i, 0, 1);
        DropWriter(i);
        return writeFd, 0, 0, i;
      }
      assert forall g :: 0 <= g < writeFd && g != readFd ==> tables[t].slots[g] == old(tables)[t].slots[g];
      Installed(pipes, tables, t, writeFd, Writer(i), i, 0, 0);
      tables := tables[t := tables[t].(slots := tables[t].slots[writeFd := Writer(i)])];
      Settled(pipes, tables, i);
      return 0, readFd, writeFd, i;
    }

    /** pipe_alloc: the first pipe not in use, empty and with one owner for each end. */
    method AllocPipe() returns (i: int)
      requires Valid()
      modifies this`pipes, this`sent, this`got
      ensures -1 <= i < PIPES && Fifo(pipes, sent, got)
      ensures i < 0 ==> Valid() && pipes == old(pipes) && forall k :: 0 <= k < PIPES ==> pipes[k].inUse
      ensures i >= 0 ==> |old(pipes)| == PIPES && !old(pipes)[i].inUse && pipes == old(pipes)[i := NewPipe()]
      ensures i < 0 ==> sent == old(sent) && got == old(got)
      ensures i >= 0 ==> Owed(pipes, tables, i, 1, 1) && |old(sent)| == |old(got)| == PIPES
      ensures i >= 0 ==> sent == old(sent)[i := []] && got == old(got)[i := []]
    {
      hide Fifo, Owed;
      Sizes(pipes, sent, got);
      for k := 0 to PIPES
        invariant pipes == old(pipes) && sent == old(sent) && got == old(got)
        invariant forall x :: 0 <= x < k ==> pipes[x].inUse
      {
        if !pipes[k].inUse {
          Claimed(pipes, tables, k);
          assert Held(EmptyRing()) == [] + Held(EmptyRing());
          RingSet(pipes, sent, got, k, NewPipe(), [], []);
          pipes, sent, got := pipes[k := NewPipe()], sent[k := []], got[k := []];
          return k;
        }
      }
      return -1;
    }

    /** pipe_close_write on a pipe whose read end is already gone. */
    method DropWriter(i: nat)
      requires i < PIPES && Tables(tables) && Owed(pipes, tables, i, 0, 1) && Fifo(pipes, sent, got)
      modifies this`pipes
      ensures Valid() && |old(pipes)| == PIPES && pipes == Adjusted(old(pipes), Writer(i), -1)
    {
      hide Fifo, Owed;
      GivenUp(pipes, tables, Writer(i), i, 0, 0);
      RingsKept(pipes, sent, got, Writer(i), -1);
      pipes := Adjusted(pipes, Writer(i), -1);
      Settled(pipes, tables, i);
    }

    /** One lock section of pipe_read: bytes in order, or the end of the file only
        when the pipe is empty and no descriptor can write to it. */
    method ReadStep(t: nat, fd: int, count: nat) returns (r: int, out: seq<bv8>)
      requires Valid() && t < TABLES
      modifies this`pipes, this`got
      ensures Valid() && |got| == |old(got)| == PIPES
      ensures !(0 <= fd < FDS && tables[t].slots[fd].Reader?) <==> r == EBADF
      ensures r == EBADF ==> got == old(got) && pipes == old(pipes)
      ensures 0 <= fd < FDS && tables[t].slots[fd].Reader? ==> var i := tables[t].slots[fd].pipe;
        && i < PIPES && sent == old(sent) && got == old(got)[i := old(got)[i] + out] && got[i] <= sent[i]
        && (r == |out| || r == AGAIN) && (r == AGAIN ==> out == [] && got[i] == sent[i])
        && (r == 0 && count > 0 <==> out == [] && count > 0 && got[i] == sent[i] && Count(tables, Writer(i)) == 0)
        && (r > 0 ==> r <= count && (r == count || got[i] == sent[i])) && (count == 0 ==> r == 0)
    {
      hide Fifo, Owed;
      out := [];
      Sizes(pipes, sent, got);
      if fd < 0 || fd >= FDS || !tables[t].slots[fd].Reader? { return EBADF, []; }
      NamedInUse(pipes, tables, t, fd);
      var i := tables[t].slots[fd].pipe;
      PipeAt(pipes, tables, sent, got, i);
      assert got[i] + [] == got[i];
      assert got[i := got[i]] == got;
      if count == 0 { return 0, []; }
      var p := pipes[i];
      if p.ring.size > 0 {
        var n := if count < p.ring.size then count else p.ring.size;
        var after;
        out, after := Take(p.ring, n);
        assert got[i] + (out + Held(after)) == got[i] + out + Held(after);
        RingMoved(pipes, tables, i, after);
        RingSet(pipes, sent, got, i, p.(ring := after), sent[i], got[i] + out);
        assert sent[i := sent[i]] == sent;
        pipes, got := pipes[i := p.(ring := after)], got[i := got[i] + out];
        assert n == p.ring.size ==> Held(after) == [];
        PipeAt(pipes, tables, sent, got, i);
        return n, out;
      }
      if p.writers <= 0 { return 0, []; }
      return AGAIN, [];
    }

    /** One lock section of pipe_write: as much as fits, or the error that says
        that no descriptor can read from the pipe. */
    method WriteStep(t: nat, fd: int, data: seq<bv8>) returns (r: int)
      requires Valid() && t < TABLES && data != []
      modifies this`pipes, this`sent
      ensures Valid() && |sent| == |old(sent)| == PIPES
      ensures !(0 <= fd < FDS && tables[t].slots[fd].Writer?) <==> r == EBADF
      ensures r == EBADF ==> sent == old(sent) && pipes == old(pipes)
      ensures 0 <= fd < FDS && tables[t].slots[fd].Writer? ==> var i := tables[t].slots[fd].pipe;
        && i < PIPES && got == old(got) && (r == EPIPE || r == AGAIN || 0 < r <= |data|)
        && sent == (if r > 0 then old(sent)[i := old(sent)[i] + data[..r]] else old(sent))
        && (r == EPIPE <==> Count(tables, Reader(i)) == 0)
        && |sent[i]| - |got[i]| <= RING && (r == AGAIN || 0 < r < |data| ==> |sent[i]| - |got[i]| == RING)
    {
      hide Fifo, Owed;
      Sizes(pipes, sent, got);
      if fd < 0 || fd >= FDS || !tables[t].slots[fd].Writer? { return EBADF; }
      NamedInUse(pipes, tables, t, fd);
      var i := tables[t].slots[fd].pipe;
      PipeAt(pipes, tables, sent, got, i);
      var p := pipes[i];
      if p.readers <= 0 { return EPIPE; }
      var space := RING - p.ring.size;
      if space == 0 { return AGAIN; }
      var n := if |data| < space then |data| else space;
      var after := Add(p.ring, data[..n]);
      assert got[i] + (Held(p.ring) + data[..n]) == got[i] + Held(p.ring) + data[..n];
      RingMoved(pipes, tables, i, after);
      RingSet(pipes, sent, got, i, p.(ring := after), sent[i] + data[..n], got[i]);
      assert got[i := got[i]] == got;
      pipes, sent := pipes[i := p.(ring := after)], sent[i := sent[i] + data[..n]];
      PipeAt(pipes, tables, sent, got, i);
      return n;
    }
  }

  lemma Sizes(pipes: seq<Pipe>, sent: seq<seq<bv8>>, got: seq<seq<bv8>>)
    requires Fifo(pipes, sent, got)
    ensures |pipes| == |sent| == |got| == PIPES
  {
  }

  lemma PipeAt(pipes: seq<Pipe>, tables: seq<Table>, sent: seq<seq<bv8>>, got: seq<seq<bv8>>, i: nat)
    requires Balanced(pipes, tables) && Fifo(pipes, sent, got) && i < PIPES
    ensures |pipes| == |sent| == |got| == PIPES
    ensures pipes[i].readers == Count(tables, Reader(i)) && pipes[i].writers == Count(tables, Writer(i))
    ensures RingOk(pipes[i].ring) && sent[i] == got[i] + Held(pipes[i].ring) && pipes[i].ring.size <= RING
  {
    assert Fair(pipes[i], tables, i, 0, 0);
  }

  lemma TableUse(pipes: seq<Pipe>, tables: seq<Table>, t: nat, used: bool)
    requires Tables(tables) && Balanced(pipes, tables) && t < TABLES
    requires used || forall fd :: 0 <= fd < FDS ==> tables[t].slots[fd] == Empty
    ensures Tables(tables[t := tables[t].(used := used)]) && Balanced(pipes, tables[t := tables[t].(used := used)])
    ensures !tables[t].used ==> forall fd :: 0 <= fd < FDS ==> tables[t].slots[fd] == Empty
  {
    var now := tables[t := tables[t].(used := used)];
    forall u, fd | 0 <= u < TABLES && 0 <= fd < FDS ensures Sane(now[u], now[u].slots[fd]) {
      assert Sane(tables[u], tables[u].slots[fd]);
    }
    forall fd | 0 <= fd < FDS && !tables[t].used
      ensures tables[t].slots[fd] == Empty
    {
      assert Sane(tables[t], tables[t].slots[fd]);
    }
    forall k | 0 <= k < PIPES ensures Fair(pipes[k], now, k, 0, 0) {
      assert Fair(pipes[k], tables, k, 0, 0);
      CountUse(tables, t, used, Reader(k));
      CountUse(tables, t, used, Writer(k));
    }
  }

  lemma NoDescriptors(tables: seq<Table>)
    requires forall t :: 0 <= t < |tables| ==> tables[t].slots == seq(FDS, _ => Empty)
    ensures forall i :: Count(tables, Reader(i)) == 0 && Count(tables, Writer(i)) == 0
  {
    forall i ensures Count(tables, Reader(i)) == 0 && Count(tables, Writer(i)) == 0 {
      NoneAt(tables, Reader(i));
      NoneAt(tables, Writer(i));
    }
  }

  lemma {:induction false} NoneAt(tables: seq<Table>, v: Slot)
    requires v != Empty && forall t :: 0 <= t < |tables| ==> tables[t].slots == seq(FDS, _ => Empty)
    ensures Count(tables, v) == 0
  {
    if tables != [] {
      NoneAt(tables[..|tables| - 1], v);
      NoneIn(tables[|tables| - 1].slots, v);
    }
  }

  lemma {:induction false} NoneIn(slots: seq<Slot>, v: Slot)
    requires forall fd :: 0 <= fd < |slots| ==> slots[fd] != v
    ensures CountIn(slots, v) == 0
  {
    if slots != [] { NoneIn(slots[..|slots| - 1], v); }
  }
}
