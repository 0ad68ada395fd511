/** Whole runs over pipes: what readers get, over every interleaving of the calls
    and lock sections of all processes, is what writers put, in order. */
module Streams {
  import opened Pipes

  datatype Op =
    | Create
    | Fork(t: nat)
    | Exit(t: nat)
    | Open(t: nat)
    | Pipe2(t: nat)
    | Dup2(t: nat, oldfd: int, newfd: int)
    | CloseFd(t: nat, fd: int)
    | ReadFd(t: nat, fd: int, count: nat)
    | WriteFd(t: nat, fd: int, data: seq<bv8>)

  /** A result and the bytes a read brought, or the two descriptors of a new pipe. */
  datatype Reply = Reply(result: int, bytes: seq<bv8>) | Ends(readFd: int, writeFd: int, pipe: int)

  /** The descriptors, and of each pipe the bytes accepted and the bytes delivered since
      it was made. */
  datatype State = State(tables: seq<Table>, sent: seq<seq<bv8>>, got: seq<seq<bv8>>)

  ghost function Now(d: Descriptors): State
    reads d
  {
    State(d.tables, d.sent, d.got)
  }

  /** Some descriptor is this end of a pipe. */
  ghost predicate Has(tables: seq<Table>, v: Slot) {
    exists t, fd :: 0 <= t < |tables| && 0 <= fd < |tables[t].slots| && tables[t].slots[fd] == v
  }

  ghost predicate Named(tables: seq<Table>, i: nat) { Has(tables, Reader(i)) || Has(tables, Writer(i)) }

  ghost predicate Flowing(s: State) {
    && |s.tables| == TABLES && (forall t :: 0 <= t < TABLES ==> |s.tables[t].slots| == FDS)
    && |s.sent| == |s.got| == PIPES
    && forall i :: 0 <= i < PIPES ==> s.got[i] <= s.sent[i] && |s.sent[i]| - |s.got[i]| <= RING
  }

  /** What a descriptor of a table names. */
  function EndOf(tables: seq<Table>, t: nat, fd: int): Slot {
    if t < |tables| && tables[t].used && 0 <= fd < |tables[t].slots| then tables[t].slots[fd] else Empty
  }

  // ----- what each operation does -----

  /** A read of an end of a pipe takes the oldest bytes, as many as were asked for or as
      there are; with nothing there it has to wait, or reports the end of the file
      exactly if no descriptor of any table can write. */
  ghost predicate ReadDone(op: Op, reply: Reply, a: State, b: State)
    requires op.ReadFd? && Flowing(a)
  {
    var v := EndOf(a.tables, op.t, op.fd);
    if !v.Reader? then reply == Reply(EBADF, []) && b == a
    else
      v.pipe < PIPES && reply.Reply? &&
      var i := v.pipe;
      var held := a.sent[i][|a.got[i]|..];
      var n := if op.count < |held| then op.count else |held|;
      && reply.bytes == held[..n] && b == a.(got := a.got[i := a.got[i] + held[..n]])
      && reply.result == if n > 0 || op.count == 0 then n else if Has(a.tables, Writer(i)) then AGAIN else 0
  }

  /** A write to an end of a pipe is accepted from the front, as much as there is room
      for; without room it has to wait, and it fails exactly if no descriptor of any
      table can read. */
  ghost predicate WriteDone(op: Op, reply: Reply, a: State, b: State)
    requires op.WriteFd? && Flowing(a)
  {
    var v := EndOf(a.tables, op.t, op.fd);
    if !v.Writer? then reply == Reply(EBADF, []) && b == a
    else
      v.pipe < PIPES &&
      var i := v.pipe;
      var room := RING - (|a.sent[i]| - |a.got[i]|);
      var n := if |op.data| < room then |op.data| else room;
      if op.data == [] then reply == Reply(0, []) && b == a
      else if !Has(a.tables, Reader(i)) then reply == Reply(EPIPE, []) && b == a
      else if room == 0 then reply == Reply(AGAIN, []) && b == a
      else reply == Reply(n, []) && b == a.(sent := a.sent[i := a.sent[i] + op.data[..n]])
  }

  /** A new pipe has the two lowest free descriptors and nothing in it; nobody named it
      before. A failure changes no descriptor and no pipe that has one, and happens only
      if every pipe is named or there are no two free descriptors. */
  ghost predicate PipeDone(op: Op, reply: Reply, a: State, b: State)
    requires op.Pipe2? && op.t < TABLES && Flowing(a) && Flowing(b)
  {
    && (forall k :: 0 <= k < PIPES && Named(a.tables, k) ==> b.sent[k] == a.sent[k] && b.got[k] == a.got[k])
    && match reply
       case Reply(r, bytes) =>
         && bytes == [] && b.tables == a.tables && (r == ENFILE || r == EMFILE)
         && (r == ENFILE ==> forall k :: 0 <= k < PIPES ==> Named(a.tables, k))
         && (r == EMFILE ==>
               forall g, h :: 0 <= g < h < FDS ==> a.tables[op.t].slots[g] != Empty || a.tables[op.t].slots[h] != Empty)
       case Ends(x, y, i) =>
         && 0 <= x < y < FDS && a.tables[op.t].slots[x] == Empty && a.tables[op.t].slots[y] == Empty
         && (forall g :: 0 <= g < y && g != x ==> a.tables[op.t].slots[g] != Empty)
         && 0 <= x < FDS && 0 <= y < FDS && x != y && 0 <= i < PIPES && !Named(a.tables, i)
         && b.tables == Set(Set(a.tables, op.t, x, Reader(i)), op.t, y, Writer(i)) && b.sent[i] == [] && b.got[i] == []
  }

  /** Operations on descriptors move no byte. */
  ghost predicate TableDone(op: Op, reply: Reply, a: State, b: State)
    requires !op.Create? ==> op.t < TABLES
    requires Flowing(a) && Flowing(b)
  {
    && b.sent == a.sent && b.got == a.got && reply.Reply? && reply.bytes == []
    && var r := reply.result;
       match op
       case Create =>
         if r < 0 then b == a && forall u :: 0 <= u < TABLES ==> a.tables[u].used
         else
           && r < TABLES && !a.tables[r].used && b.tables[r].used && EmptyAt(b.tables, r)
           && OthersKept(a.tables, b.tables, r)
       case Fork(t) =>
         if r < 0 then b == a && forall u :: 0 <= u < TABLES ==> a.tables[u].used
         else r < TABLES && !a.tables[r].used && b.tables[r] == a.tables[t] && OthersKept(a.tables, b.tables, r)
       case Exit(t) => !b.tables[t].used && EmptyAt(b.tables, t) && OthersKept(a.tables, b.tables, t)
       case Open(t) =>
         if r < 0 then b == a && r == EMFILE && forall g :: 0 <= g < FDS ==> a.tables[t].slots[g] != Empty
         else r < FDS && a.tables[t].slots[r] == Empty && b.tables == Set(a.tables, t, r, Other) && forall g ::
           0 <= g < r ==>
           a.tables[t].slots[g] != Empty
       case Dup2(t, oldfd, newfd) =>
         if 0 <= oldfd < FDS && 0 <= newfd < FDS && a.tables[t].slots[oldfd] != Empty
         then r == newfd && b.tables == Set(a.tables, t, newfd, a.tables[t].slots[oldfd]) else r == EBADF && b == a
       case CloseFd(t, fd) => b.tables == if 0 <= fd < FDS then Set(a.tables, t, fd, Empty) else a.tables
       case _ => true
  }

  ghost predicate EmptyAt(tables: seq<Table>, t: nat) {
    t < |tables| && forall fd :: 0 <= fd < |tables[t].slots| ==> tables[t].slots[fd] == Empty
  }

  ghost predicate OthersKept(before: seq<Table>, after: seq<Table>, t: nat) {
    |after| == |before| && forall u :: 0 <= u < |after| && u != t ==> after[u] == before[u]
  }

  /** One operation: exactly what it does and answers. A process without a table can do
      nothing. */
  ghost predicate Did(op: Op, reply: Reply, a: State, b: State) {
    && Flowing(a) && Flowing(b)
    && if op.ReadFd? then ReadDone(op, reply, a, b)
       else if op.WriteFd? then WriteDone(op, reply, a, b)
       else if !op.Create? && (op.t >= TABLES || !a.tables[op.t].used) then reply == Reply(EBADF, []) && b == a
       else if op.Pipe2? then PipeDone(op, reply, a, b)
       else TableDone(op, reply, a, b)
  }

  ghost predicate Ran(ops: seq<Op>, replies: seq<Reply>, trace: seq<State>) {
    |replies| == |ops| && |trace| == |ops| + 1 && forall k :: 0 <= k < |ops| ==> Did(ops[k], replies[k], trace[k],
                                                                                     trace[k + 1])
  }

  // ----- running -----

  /** Any interleaving of calls and lock sections of any processes: counts and
      buffers stay right, and every step does and answers exactly what it should. */
  method Run(d: Descriptors, ops: seq<Op>) returns (replies: seq<Reply>, ghost trace: seq<State>)
    requires d.Valid()
    modifies d
    ensures d.Valid() && Ran(ops, replies, trace) && trace[0] == old(Now(d)) && trace[|ops|] == Now(d)
  {
    hide Did, Tables, Owed, Fifo;
    replies, trace := [], [Now(d)];
    for k := 0 to |ops|
      invariant d.Valid() && |replies| == k && |trace| == k + 1 && trace[0] == old(Now(d)) && trace[k] == Now(d)
      invariant forall j :: 0 <= j < k ==> Did(ops[j], replies[j], trace[j], trace[j + 1])
    {
      var reply := Do(d, ops[k]);
      replies, trace := replies + [reply], trace + [Now(d)];
    }
  }

  method Do(d: Descriptors, op: Op) returns (reply: Reply)
    requires d.Valid()
    modifies d
    ensures d.Valid() && Did(op, reply, old(Now(d)), Now(d))
  {
    hide Tables, Owed, Fifo, Flowing, ReadDone, WriteDone, PipeDone, TableDone;
    AllFlow(d);
    reply := Reply(EBADF, []);
    if op.ReadFd? {
      reply := DoRead(d, op);
    } else if op.WriteFd? {
      reply := DoWrite(d, op);
    } else if op.Create? {
      reply := DoTable(d, op);
    } else {
      Shape(d.tables);
      if op.t < TABLES && d.tables[op.t].used {
        if op.Pipe2? { reply := DoPipe(d, op); } else { reply := DoTable(d, op); }
      }
    }
    AllFlow(d);
  }

  method DoTable(d: Descriptors, op: Op) returns (reply: Reply)
    requires d.Valid() && !op.ReadFd? && !op.WriteFd? && !op.Pipe2?
    requires (!op.Create? ==> op.t < TABLES && d.tables[op.t].used)
    modifies d
    ensures d.Valid() && Flowing(old(Now(d))) && Flowing(Now(d)) && TableDone(op, reply, old(Now(d)), Now(d))
  {
    hide Tables, Owed, Fifo;
    AllFlow(d);
    Shape(d.tables);
    var r := 0;
    match op {
      case Create => r := d.CreateTable();
      case Fork(t) => r := d.CloneTable(t);
      case Exit(t) => d.DestroyTable(t);
      case Open(t) => r := d.OpenOther(t);
      case Dup2(t, oldfd, newfd) => r := d.Dup(t, oldfd, newfd);
      case CloseFd(t, fd) => d.Close(t, fd);
    }
    AllFlow(d);
    reply := Reply(r, []);
  }

  method DoRead(d: Descriptors, op: Op) returns (reply: Reply)
    requires d.Valid() && op.ReadFd?
    modifies d
    ensures d.Valid() && Flowing(old(Now(d))) && ReadDone(op, reply, old(Now(d)), Now(d))
  {
    hide Tables, Owed, Fifo, Has;
    AllFlow(d);
    Shape(d.tables);
    if op.t >= TABLES { return Reply(EBADF, []); }
    NoSlots(d.tables, op.t, op.fd);
    ghost var a := Now(d);
    var r, out := d.ReadStep(op.t, op.fd, op.count);
    AllFlow(d);
    reply := Reply(r, if r == EBADF then [] else out);
    if r != EBADF {
      ghost var i := d.tables[op.t].slots[op.fd].pipe;
      NoneCounted(d.tables, Writer(i));
      SomeCounted(d.tables, Writer(i));
      TookOldest(a.sent[i], a.got[i], out, op.count);
    }
  }

  /** Bytes that continue what was delivered are the oldest ones. */
  lemma TookOldest(sent: seq<bv8>, got: seq<bv8>, out: seq<bv8>, count: nat)
    requires got <= sent && got + out <= sent && |out| <= count && (|out| == count || got + out == sent)
    ensures var held := sent[|got|..]; out == held[..if count < |held| then count else |held|]
  {
    assert out == sent[|got|..|got| + |out|];
  }

  method DoWrite(d: Descriptors, op: Op) returns (reply: Reply)
    requires d.Valid() && op.WriteFd?
    modifies d
    ensures d.Valid() && Flowing(old(Now(d))) && WriteDone(op, reply, old(Now(d)), Now(d))
  {
    hide Tables, Owed, Fifo, Has;
    AllFlow(d);
    Shape(d.tables);
    if op.t >= TABLES { return Reply(EBADF, []); }
    NoSlots(d.tables, op.t, op.fd);
    if op.data == [] {
      var v := EndOf(d.tables, op.t, op.fd);
      EndInRange(d.tables, op.t, op.fd);
      return Reply(if v.Writer? then 0 else EBADF, []);
    }
    var r := d.WriteStep(op.t, op.fd, op.data);
    reply := Reply(r, []);
    if r != EBADF {
      ghost var i := d.tables[op.t].slots[op.fd].pipe;
      NoneCounted(d.tables, Reader(i));
      SomeCounted(d.tables, Reader(i));
    }
  }

  method DoPipe(d: Descriptors, op: Op) returns (reply: Reply)
    requires d.Valid() && op.Pipe2? && op.t < TABLES && d.tables[op.t].used
    modifies d
    ensures d.Valid() && Flowing(old(Now(d))) && Flowing(Now(d)) && PipeDone(op, reply, old(Now(d)), Now(d))
  {
    hide Tables, Owed, Fifo, Named;
    AllFlow(d);
    Shape(d.tables);
    InUse(d.pipes, d.tables);
    var r, readFd, writeFd, i := d.CreatePipe(op.t);
    AllFlow(d);
    if r < 0 { reply := Reply(r, []); } else { reply := Ends(readFd, writeFd, i); }
  }

  // ----- why -----

  ghost predicate EndsFrom(before: seq<Table>, after: seq<Table>) {
    forall v: Slot :: (v.Reader? || v.Writer?) && Has(after, v) ==> Has(before, v)
  }

  lemma SameEnds(tables: seq<Table>)
    ensures EndsFrom(tables, tables)
  {
  }

  lemma Shape(tables: seq<Table>)
    requires Tables(tables)
    ensures |tables| == TABLES && forall t :: 0 <= t < TABLES ==> |tables[t].slots| == FDS
  {
  }

  lemma AllFlow(d: Descriptors)
    requires d.Valid()
    ensures Flowing(Now(d))
  {
    forall i | 0 <= i < PIPES ensures d.got[i] <= d.sent[i] &&
      |d.sent[i]| - |d.got[i]| <= RING { PipeAt(d.pipes, d.tables, d.sent, d.got, i); }
  }

  /** A table that is not used has no descriptors. */
  lemma NoSlots(tables: seq<Table>, t: nat, fd: int)
    requires Tables(tables) && t < TABLES
    ensures |tables| == TABLES && |tables[t].slots| == FDS
    ensures (0 <= fd < FDS ==> EndOf(tables, t, fd) == tables[t].slots[fd])
  {
    if 0 <= fd < FDS { assert Sane(tables[t], tables[t].slots[fd]); }
  }

  lemma EndInRange(tables: seq<Table>, t: nat, fd: int)
    requires Tables(tables) && t < TABLES
    ensures var v := EndOf(tables, t, fd); v.Reader? || v.Writer? ==> v.pipe < PIPES
  {
    if 0 <= fd < FDS { assert Sane(tables[t], tables[t].slots[fd]); }
  }

  lemma OneSet(before: seq<Table>, after: seq<Table>, t: nat, fd: int, x: Slot)
    requires t < |before| && fd < |before[t].slots| && after == if fd >= 0 then Set(before, t, fd, x) else before
    requires x == Empty || x == Other || Has(before, x)
    ensures EndsFrom(before, after)
  {
    forall v: Slot | (v.Reader? || v.Writer?) && Has(after, v) ensures Has(before, v) {
      var u, g :| 0 <= u < |after| && 0 <= g < |after[u].slots| && after[u].slots[g] == v;
      if v != x { assert before[u].slots[g] == v; }
    }
  }

  lemma OneEmptied(before: seq<Table>, after: seq<Table>, t: int)
    requires |after| == |before| && t < |after| && (t < 0 ==> after == before)
    requires t >= 0 ==> forall fd :: 0 <= fd < |after[t].slots| ==> after[t].slots[fd] == Empty
    requires forall u :: 0 <= u < |after| && u != t ==> after[u] == before[u]
    ensures EndsFrom(before, after)
  {
    forall v: Slot | (v.Reader? || v.Writer?) && Has(after, v) ensures Has(before, v) {
      var u, g :| 0 <= u < |after| && 0 <= g < |after[u].slots| && after[u].slots[g] == v;
      assert before[u].slots[g] == v;
    }
  }

  lemma OneCopied(before: seq<Table>, after: seq<Table>, t: int, source: nat)
    requires |after| == |before| && t < |after| && source < |before| && (t < 0 ==> after == before)
    requires t >= 0 ==> after[t] == before[source]
    requires forall u :: 0 <= u < |after| && u != t ==> after[u] == before[u]
    ensures EndsFrom(before, after)
  {
    forall v: Slot | (v.Reader? || v.Writer?) && Has(after, v) ensures Has(before, v) {
      var u, g :| 0 <= u < |after| && 0 <= g < |after[u].slots| && after[u].slots[g] == v;
      assert before[if u == t then source else u].slots[g] == v;
    }
  }

  lemma NewEnds(before: seq<Table>, t: nat, r: nat, w: nat, i: nat)
    requires t < |before| && r < |before[t].slots| && w < |before[t].slots|
    ensures forall v: Slot :: Has(Set(Set(before, t, r, Reader(i)), t, w, Writer(i)), v) ==>
      Has(before, v) || v == Reader(i) || v == Writer(i)
  {
    var after := Set(Set(before, t, r, Reader(i)), t, w, Writer(i));
    forall v: Slot | Has(after, v) && v != Reader(i) && v != Writer(i) ensures Has(before, v) {
      var u, g :| 0 <= u < |after| && 0 <= g < |after[u].slots| && after[u].slots[g] == v;
      assert before[u].slots[g] == v;
    }
  }

  lemma NoneCounted(tables: seq<Table>, v: Slot)
    ensures Count(tables, v) == 0 ==> !Has(tables, v)
  {
    if Has(tables, v) {
      var t, fd :| 0 <= t < |tables| && 0 <= fd < |tables[t].slots| && tables[t].slots[fd] == v;
      CountHas(tables, t, fd);
    }
  }

  lemma {:induction false} SomeCounted(tables: seq<Table>, v: Slot)
    ensures Count(tables, v) > 0 ==> Has(tables, v)
  {
    if tables != [] && Count(tables, v) > 0 {
      var n := |tables| - 1;
      if CountIn(tables[n].slots, v) > 0 {
        var fd := SomeIn(tables[n].slots, v);
        assert tables[n].slots[fd] == v;
      } else {
        SomeCounted(tables[..n], v);
        var t, fd :| 0 <= t < |tables[..n]| && 0 <= fd < |tables[..n][t].slots| && tables[..n][t].slots[fd] == v;
        assert tables[t].slots[fd] == v;
      }
    }
  }

  lemma {:induction false} SomeIn(slots: seq<Slot>, v: Slot) returns (fd: nat)
    requires CountIn(slots, v) > 0
    ensures fd < |slots| && slots[fd] == v
  {
    var n := |slots| - 1;
    if slots[n] == v { fd := n; } else { fd := SomeIn(slots[..n], v); }
  }

  /** A pipe is in use exactly if a descriptor names it. */
  lemma InUse(pipes: seq<Pipe>, tables: seq<Table>)
    requires Balanced(pipes, tables)
    ensures |pipes| == PIPES && forall i :: 0 <= i < PIPES && Named(tables, i) ==> pipes[i].inUse
    ensures forall i :: 0 <= i < PIPES && pipes[i].inUse ==> Named(tables, i)
  {
    forall i | 0 <= i < PIPES ensures Named(tables, i) <==> pipes[i].inUse {
      assert Fair(pipes[i], tables, i, 0, 0);
      NoneCounted(tables, Reader(i));
      NoneCounted(tables, Writer(i));
      SomeCounted(tables, Reader(i));
      SomeCounted(tables, Writer(i));
    }
  }

  // ----- what every run promises -----

  predicate Makes(op: Op, reply: Reply, i: nat) { op.Pipe2? && reply.Ends? && reply.pipe == i }

  predicate Reads(op: Op, a: State, i: nat) { op.ReadFd? && EndOf(a.tables, op.t, op.fd) == Reader(i) }

  predicate Writes(op: Op, a: State, i: nat) { op.WriteFd? && EndOf(a.tables, op.t, op.fd) == Writer(i) }

  /** The part of what a writer passed that was accepted. */
  function Accepted(op: Op, reply: Reply): seq<bv8> {
    if op.WriteFd? && reply.Reply? && 0 < reply.result <= |op.data| then op.data[..reply.result] else []
  }

  /** What a step means for one pipe. */
  lemma PipeStep(op: Op, reply: Reply, a: State, b: State, i: nat)
    requires Did(op, reply, a, b) && i < PIPES && Flowing(a) && Flowing(b)
    ensures Makes(op, reply, i) ==> !Named(a.tables, i) && b.sent[i] == [] && b.got[i] == []
    ensures Reads(op, a, i) ==>
      reply.Reply? && Has(a.tables, Reader(i)) && b.sent[i] == a.sent[i] && b.got[i] == a.got[i] + reply.bytes
    ensures Reads(op, a, i) && reply.Reply? && reply.result == 0 && op.count > 0 ==>
      reply.bytes == [] && a.got[i] == a.sent[i] && !Has(a.tables, Writer(i))
    ensures Writes(op, a, i) ==>
      Has(a.tables, Writer(i)) && b.sent[i] == a.sent[i] + Accepted(op, reply) && b.got[i] == a.got[i]
    ensures !Reads(op, a, i) && !Writes(op, a, i) && Named(a.tables, i) ==>
      b.sent[i] == a.sent[i] && b.got[i] == a.got[i]
  {
    hide Has, Named, Flowing;
    Sizes2(a);
    Sizes2(b);
    if op.ReadFd? || op.WriteFd? {
      EndHas(a.tables, op.t, op.fd);
      assert a.sent[i] + [] == a.sent[i] && a.got[i] + [] == a.got[i];
      if Reads(op, a, i) { NothingHeld(a.sent[i], a.got[i]); }
    }
  }

  lemma Sizes2(a: State)
    requires Flowing(a)
    ensures |a.sent| == |a.got| == PIPES && |a.tables| == TABLES && forall i :: 0 <= i < PIPES ==>
      a.got[i] <= a.sent[i] && |a.sent[i]| - |a.got[i]| <= RING
  {
  }

  lemma NothingHeld(sent: seq<bv8>, got: seq<bv8>)
    requires got <= sent
    ensures sent[|got|..] == [] <==> got == sent
  {
  }

  lemma EndHas(tables: seq<Table>, t: nat, fd: int)
    ensures EndOf(tables, t, fd) == Empty || Has(tables, EndOf(tables, t, fd))
  {
  }

  /** No end of a pipe comes from nowhere: only a new pipe has new ends. */
  lemma EndsKept(op: Op, reply: Reply, a: State, b: State)
    requires Did(op, reply, a, b)
    ensures forall v: Slot :: (v.Reader? || v.Writer?) && Has(b.tables, v) ==>
      Has(a.tables, v) || Makes(op, reply, v.pipe)
  {
    hide Has;
    SameEnds(a.tables);
    match op
    case Create => if reply.result >= 0 { OneEmptied(a.tables, b.tables, reply.result); }
    case Fork(t) =>
      if t < TABLES && a.tables[t].used && reply.result >= 0 {
        OneCopied(a.tables, b.tables, reply.result, t);
      }
    case Exit(t) => if t < TABLES && a.tables[t].used { OneEmptied(a.tables, b.tables, t); }
    case Open(t) =>
      if t < TABLES && a.tables[t].used && reply.result >= 0 {
        OneSet(a.tables, b.tables, t, reply.result, Other);
      }
    case Dup2(t, oldfd, newfd) =>
      if t < TABLES && a.tables[t].used && reply.result >= 0 {
        EndHas(a.tables, t, oldfd);
        OneSet(a.tables, b.tables, t, newfd, a.tables[t].slots[oldfd]);
      }
    case CloseFd(t, fd) =>
      if t < TABLES && a.tables[t].used && 0 <= fd < FDS {
        OneSet(a.tables, b.tables, t, fd, Empty);
      }
    case Pipe2(t) => if reply.Ends? { NewEnds(a.tables, t, reply.readFd, reply.writeFd, reply.pipe); }
    case _ =>
  }

  /** What the writers of a pipe passed and had accepted, in a stretch of a run. */
  ghost function Put(ops: seq<Op>, replies: seq<Reply>, trace: seq<State>, i: nat, from: nat, till: nat): seq<bv8>
    requires from <= till <= |ops| == |replies| && till <= |trace|
    decreases till
  {
    if till == from then []
    else
      Put(ops, replies, trace, i, from, till - 1) +
      if Writes(ops[till - 1], trace[till - 1], i) then Accepted(ops[till - 1], replies[till - 1]) else []
  }

  /** What the readers of a pipe got, in a stretch of a run. */
  ghost function Taken(ops: seq<Op>, replies: seq<Reply>, trace: seq<State>, i: nat, from: nat, till: nat): seq<bv8>
    requires from <= till <= |ops| == |replies| && till <= |trace|
    decreases till
  {
    if till == from then []
    else
      Taken(ops, replies, trace, i, from, till - 1) +
      if Reads(ops[till - 1], trace[till - 1], i) && replies[till - 1].Reply? then replies[till - 1].bytes else []
  }

  ghost predicate Streaming(ops: seq<Op>, replies: seq<Reply>, trace: seq<State>, i: nat, k: nat, n: nat)
    requires Ran(ops, replies, trace) && k < n <= |ops| && i < PIPES && Flowing(trace[n])
  {
    var put, taken := Put(ops, replies, trace, i, k + 1, n), Taken(ops, replies, trace, i, k + 1, n);
    taken <= put && (Named(trace[n].tables, i) ==> put == trace[n].sent[i] && taken == trace[n].got[i])
  }

  /** First in, first out: since a pipe was made, what its readers got is a prefix of
      what its writers passed and had accepted, whoever read and wrote. */
  lemma {:induction false} InOrder(ops: seq<Op>, replies: seq<Reply>, trace: seq<State>, i: nat, k: nat, n: nat)
    requires Ran(ops, replies, trace) && k < n <= |ops| && i < PIPES && Makes(ops[k], replies[k], i)
    requires forall j :: k < j < n ==> !Makes(ops[j], replies[j], i)
    ensures Flowing(trace[n]) && Streaming(ops, replies, trace, i, k, n)
    ensures Taken(ops, replies, trace, i, k + 1, n) <= Put(ops, replies, trace, i, k + 1, n)
    decreases n
  {
    hide Has, Named, Did, EndOf, Accepted, Flowing;
    var m := n - 1;
    Step(ops, replies, trace, m);
    PipeStep(ops[m], replies[m], trace[m], trace[n], i);
    Sizes2(trace[n]);
    Sizes2(trace[m]);
    if k < m {
      InOrder(ops, replies, trace, i, k, m);
      Unnamed(ops[m], replies[m], trace[m], trace[n], i);
      ReadNamed(trace[m].tables, i);
      Put1(ops, replies, trace, i, k + 1, n);
    }
  }

  lemma Step(ops: seq<Op>, replies: seq<Reply>, trace: seq<State>, m: nat)
    requires Ran(ops, replies, trace) && m < |ops|
    ensures Did(ops[m], replies[m], trace[m], trace[m + 1]) && Flowing(trace[m]) && Flowing(trace[m + 1])
  {
    assert Did(ops[m], replies[m], trace[m], trace[m + 1]);
  }

  lemma Put1(ops: seq<Op>, replies: seq<Reply>, trace: seq<State>, i: nat, from: nat, n: nat)
    requires from < n <= |ops| == |replies| && n <= |trace|
    ensures !Writes(ops[n - 1], trace[n - 1], i) ==>
      Put(ops, replies, trace, i, from, n) == Put(ops, replies, trace, i, from, n - 1)
    ensures !Reads(ops[n - 1], trace[n - 1], i) ==>
      Taken(ops, replies, trace, i, from, n) == Taken(ops, replies, trace, i, from, n - 1)
  {
    assert forall s: seq<bv8> :: s + [] == s;
  }

  lemma Unnamed(op: Op, reply: Reply, a: State, b: State, i: nat)
    requires Did(op, reply, a, b) && i < PIPES && !Makes(op, reply, i)
    ensures Named(b.tables, i) ==> Named(a.tables, i)
    ensures Has(b.tables, Writer(i)) ==> Has(a.tables, Writer(i))
  {
    hide Has, Did;
    EndsKept(op, reply, a, b);
  }

  lemma ReadNamed(tables: seq<Table>, i: nat)
    ensures Has(tables, Reader(i)) || Has(tables, Writer(i)) ==> Named(tables, i)
  {
  }

  /** The end of the file is the end: once a read reported it, everything accepted has
      been delivered and nothing is accepted or delivered any more. */
  lemma EndIsEnd(ops: seq<Op>, replies: seq<Reply>, trace: seq<State>, i: nat, k: nat, m: nat, n: nat)
    requires Ran(ops, replies, trace) && k < m < n <= |ops| && i < PIPES && Makes(ops[k], replies[k], i)
    requires forall j :: k < j < n ==> !Makes(ops[j], replies[j], i)
    requires Reads(ops[m], trace[m], i) && ops[m].count > 0 && replies[m].Reply? && replies[m].result == 0
    ensures Put(ops, replies, trace, i, k + 1, n) == Put(ops, replies, trace, i, k + 1, m)
    ensures Taken(ops, replies, trace, i, k + 1, n) == Taken(ops, replies, trace, i, k + 1, m)
      == Put(ops, replies, trace, i, k + 1, n)
  {
    hide Has, Named, Did, Put, Taken, EndOf, Flowing;
    InOrder(ops, replies, trace, i, k, m);
    InOrder(ops, replies, trace, i, k, n);
    Step(ops, replies, trace, m);
    PipeStep(ops[m], replies[m], trace[m], trace[m + 1], i);
    Sizes2(trace[m]);
    ReadNamed(trace[m].tables, i);
    NoWriters(ops, replies, trace, i, k, m, n);
    Grows(ops, replies, trace, i, k + 1, m, n);
  }

  lemma {:induction false} NoWriters(ops: seq<Op>, replies: seq<Reply>, trace: seq<State>, i: nat, k: nat, m: nat,
                                     n: nat)
    requires Ran(ops, replies, trace) && k < m <= n <= |ops| && i < PIPES && !Has(trace[m].tables, Writer(i))
    requires forall j :: k < j < n ==> !Makes(ops[j], replies[j], i)
    ensures !Has(trace[n].tables, Writer(i))
    ensures Put(ops, replies, trace, i, k + 1, n) == Put(ops, replies, trace, i, k + 1, m)
    decreases n
  {
    hide Has, Named, Did, EndOf, Flowing;
    if m < n {
      NoWriters(ops, replies, trace, i, k, m, n - 1);
      Step(ops, replies, trace, n - 1);
      PipeStep(ops[n - 1], replies[n - 1], trace[n - 1], trace[n], i);
      Unnamed(ops[n - 1], replies[n - 1], trace[n - 1], trace[n], i);
      Put1(ops, replies, trace, i, k + 1, n);
    }
  }

  lemma {:induction false} Grows(ops: seq<Op>, replies: seq<Reply>, trace: seq<State>, i: nat, from: nat, m: nat,
                                 n: nat)
    requires from <= m <= n <= |ops| == |replies| && n <= |trace|
    ensures Taken(ops, replies, trace, i, from, m) <= Taken(ops, replies, trace, i, from, n)
    decreases n
  {
    if m < n { Grows(ops, replies, trace, i, from, m, n - 1); }
  }
}
