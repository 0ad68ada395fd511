/** The bytes of a file, spread over the clusters of its chain. */
module Bytes {
  type Clusters = seq<seq<bv8>>

  ghost predicate AllSized(data: Clusters, csize: nat) {
    forall c :: 0 <= c < |data| ==> |data[c]| == csize
  }

  ghost predicate Inside(data: Clusters, s: seq<nat>) {
    forall i :: 0 <= i < |s| ==> s[i] < |data|
  }

  function ZeroBytes(n: nat): (b: seq<bv8>)
    ensures |b| == n && forall i :: 0 <= i < n ==> b[i] == 0
  {
    seq(n, _ => 0)
  }

  /** One stretch of a sequence replaced. */
  function Splice(b: seq<bv8>, at: nat, bytes: seq<bv8>): (r: seq<bv8>)
    requires at + |bytes| <= |b|
    ensures |r| == |b| && forall i :: 0 <= i < |b| ==> r[i] == if at <= i < at + |bytes| then bytes[i - at] else b[i]
  {
    b[..at] + bytes + b[at + |bytes|..]
  }

  /** Where the clusters of a file begin. */
  ghost function Start(i: nat, csize: nat): nat {
    if i == 0 then 0 else Start(i - 1, csize) + csize
  }

  /** All bytes of a chain, cluster after cluster. */
  ghost function Flat(data: Clusters, s: seq<nat>): seq<bv8>
    requires Inside(data, s)
  {
    if s == [] then [] else Flat(data, s[..|s| - 1]) + data[s[|s| - 1]]
  }

  lemma {:induction false} FlatSize(data: Clusters, s: seq<nat>, csize: nat)
    requires Inside(data, s) && AllSized(data, csize)
    ensures |Flat(data, s)| == Start(|s|, csize)
  {
    if s != [] {
      FlatSize(data, s[..|s| - 1], csize);
      assert Start(|s|, csize) == Start(|s| - 1, csize) + csize;
    }
  }

  lemma FlatAppend(data: Clusters, s: seq<nat>, c: nat)
    requires Inside(data, s) && c < |data|
    ensures Inside(data, s + [c]) && Flat(data, s + [c]) == Flat(data, s) + data[c]
  {
    assert (s + [c])[..|s|] == s;
  }

  lemma {:induction false} FlatSame(data: Clusters, now: Clusters, s: seq<nat>)
    requires Inside(data, s) && |now| == |data| && forall c :: c in s && c < |data| ==> now[c] == data[c]
    ensures Inside(now, s) && Flat(now, s) == Flat(data, s)
  {
    if s != [] {
      var t := s[..|s| - 1];
      forall c | c in t && c < |data| ensures now[c] == data[c] { assert c in s; }
      FlatSame(data, now, t);
      assert s[|s| - 1] in s;
    }
  }

  lemma {:induction false} FlatPrefix(data: Clusters, s: seq<nat>, csize: nat, n: nat)
    requires Inside(data, s) && AllSized(data, csize) && n <= |s|
    ensures Start(n, csize) <= |Flat(data, s)| && Flat(data, s[..n]) == Flat(data, s)[..Start(n, csize)]
  {
    FlatSize(data, s, csize);
    if n == |s| {
      assert s[..n] == s;
    } else {
      var t := s[..|s| - 1];
      FlatPrefix(data, t, csize, n);
      assert t[..n] == s[..n];
      assert Flat(data, s) == Flat(data, t) + data[s[|s| - 1]];
    }
  }

  ghost predicate OnlyAt(data: Clusters, now: Clusters, c: nat) {
    |now| == |data| && forall d :: 0 <= d < |data| && d != c ==> now[d] == data[d]
  }

  ghost predicate Apart(s: seq<nat>) {
    forall j, k :: 0 <= j < k < |s| ==> s[j] != s[k]
  }

  /** Bytes written inside the cluster at a place of the chain. */
  lemma {:induction false} FlatSplice(data: Clusters, now: Clusters, s: seq<nat>, csize: nat, i: nat, at: nat,
                                      bytes: seq<bv8>)
    requires Inside(data, s) && AllSized(data, csize) && i < |s| && Apart(s) && OnlyAt(data, now, s[i])
    requires at + |bytes| <= csize && now[s[i]] == Splice(data[s[i]], at, bytes)
    ensures Start(i, csize) + at + |bytes| <= |Flat(data, s)| && Inside(now, s)
    ensures Flat(now, s) == Splice(Flat(data, s), Start(i, csize) + at, bytes)
  {
    hide Splice, Apart, Flat;
    var n := |s| - 1;
    var t, last := s[..n], s[n];
    FlatSize(data, t, csize);
    FlatLast(data, s);
    assert last < |now|;
    FlatLast(now, s);
    Shorter(s);
    if i == n {
      FlatUntouched(data, now, t, last);
      SpliceRight(Flat(data, t), data[last], at, bytes);
    } else {
      FlatSplice(data, now, t, csize, i, at, bytes);
      assert t[i] == s[i];
      SpliceLeft(Flat(data, t), data[last], Start(i, csize) + at, bytes);
    }
  }

  /** Bytes read inside the cluster at a place of the chain. */
  lemma {:induction false} FlatSlice(data: Clusters, s: seq<nat>, csize: nat, i: nat, at: nat, n: nat)
    requires Inside(data, s) && AllSized(data, csize) && i < |s| && at + n <= csize
    ensures Start(i, csize) + at + n <= |Flat(data, s)|
    ensures Flat(data, s)[Start(i, csize) + at..Start(i, csize) + at + n] == data[s[i]][at..at + n]
  {
    hide Flat;
    var last := |s| - 1;
    FlatLast(data, s);
    FlatSize(data, s[..last], csize);
    var head := Flat(data, s[..last]);
    if i < last {
      FlatSlice(data, s[..last], csize, i, at, n);
      assert s[..last][i] == s[i];
      assert (head + data[s[last]])[Start(i, csize) + at..Start(i, csize) + at + n]
        == head[Start(i, csize) + at..Start(i, csize) + at + n];
    } else {
      assert (head + data[s[last]])[|head| + at..|head| + at + n] == data[s[last]][at..at + n];
    }
  }

  lemma FlatLast(data: Clusters, s: seq<nat>)
    requires Inside(data, s) && s != []
    ensures Flat(data, s) == Flat(data, s[..|s| - 1]) + data[s[|s| - 1]]
  {
  }

  lemma Shorter(s: seq<nat>)
    requires Apart(s) && s != []
    ensures Apart(s[..|s| - 1]) && s[|s| - 1] !in s[..|s| - 1]
  {
  }

  lemma FlatUntouched(data: Clusters, now: Clusters, s: seq<nat>, c: nat)
    requires Inside(data, s) && OnlyAt(data, now, c) && c !in s
    ensures Inside(now, s) && Flat(now, s) == Flat(data, s)
  {
    FlatSame(data, now, s);
  }

  lemma SpliceLeft(a: seq<bv8>, b: seq<bv8>, at: nat, bytes: seq<bv8>)
    requires at + |bytes| <= |a|
    ensures Splice(a + b, at, bytes) == Splice(a, at, bytes) + b
  {
  }

  lemma SpliceRight(a: seq<bv8>, b: seq<bv8>, at: nat, bytes: seq<bv8>)
    requires at + |bytes| <= |b|
    ensures Splice(a + b, |a| + at, bytes) == a + Splice(b, at, bytes)
  {
  }

  lemma {:induction false} StartGrows(i: nat, n: nat, csize: nat)
    requires i < n
    ensures Start(i, csize) + csize <= Start(n, csize)
    decreases n
  {
    if i < n - 1 { StartGrows(i, n - 1, csize); }
  }

  lemma {:induction false} StartIs(i: nat, csize: nat)
    ensures Start(i, csize) == i * csize
  {
    if i > 0 {
      StartIs(i - 1, csize);
      assert i * csize == (i - 1) * csize + csize;
    }
  }

  /** The cluster of a byte and its position there. */
  lemma Position(pos: nat, csize: nat)
    requires csize > 0
    ensures pos == Start(pos / csize, csize) + pos % csize && pos % csize < csize
  {
    StartIs(pos / csize, csize);
  }

  lemma PositionIs(pos: nat, i: nat, csize: nat)
    requires Start(i, csize) <= pos < Start(i, csize) + csize
    ensures pos / csize == i && pos % csize == pos - Start(i, csize)
  {
    Position(pos, csize);
    var q := pos / csize;
    if q < i { StartGrows(q, i, csize); }
    if q > i { StartGrows(i, q, csize); }
  }

  /** One byte range overwritten in a sequence that may have grown. */
  ghost predicate Written(b: seq<bv8>, now: seq<bv8>, at: nat, bytes: seq<bv8>) {
    && |b| <= |now| && (bytes != [] ==> at + |bytes| <= |now|)
    && (forall i :: 0 <= i < |bytes| ==> now[at + i] == bytes[i])
    && (forall i :: 0 <= i < |b| && !(at <= i < at + |bytes|) ==> now[i] == b[i])
  }

  lemma WrittenMore(b: seq<bv8>, mid: seq<bv8>, now: seq<bv8>, at: nat, x: seq<bv8>, y: seq<bv8>)
    requires Written(b, mid, at, x) && at + |x| + |y| <= |now| && |mid| == |now| && now == Splice(mid, at + |x|, y)
    ensures Written(b, now, at, x + y)
  {
  }

  /** First the sequence grew, then the range was written. */
  lemma WrittenLate(b: seq<bv8>, mid: seq<bv8>, now: seq<bv8>, at: nat, x: seq<bv8>)
    requires |b| <= |mid| && mid[..|b|] == b && Written(mid, now, at, x)
    ensures Written(b, now, at, x)
  {
    forall i | 0 <= i < |b| ensures mid[i] == b[i] { assert mid[..|b|][i] == b[i]; }
  }

  lemma WrittenGrow(b: seq<bv8>, mid: seq<bv8>, at: nat, x: seq<bv8>, tail: seq<bv8>)
    requires Written(b, mid, at, x)
    ensures Written(b, mid + tail, at, x)
  {
  }

  /** A file after a write: zeros up to the offset if it was shorter, then the bytes. */
  ghost function Overwrite(b: seq<bv8>, at: nat, bytes: seq<bv8>): seq<bv8>
    requires at <= |b|
  {
    if at + |bytes| <= |b| then Splice(b, at, bytes) else b[..at] + bytes
  }

  /** Bytes beyond the end of the file do not show. */
  lemma Cropped(b: seq<bv8>, now: seq<bv8>, size: nat, at: nat, bytes: seq<bv8>, reach: nat)
    requires Written(b, now, at, bytes) && at <= size <= |b| && reach <= |bytes|
    requires reach == |bytes| || at + reach >= size
    ensures var end := if at + reach > size then at + reach else size;
      end <= |now| && now[..end] == Overwrite(b[..size], at, bytes[..reach])
  {
  }
}
