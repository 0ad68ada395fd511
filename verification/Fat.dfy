/** The file allocation table of a FAT32 volume (sections 4 and 5 of the
    Microsoft FAT Specification): chains of clusters and the free count. */
module Fat {
  const EOC_MIN := 0x0FFF_FFF8
  const EOC := 0x0FFF_FFFF
  const MAX_CLUSTERS := 0x0FFF_FFF5

  /** The 28-bit entries; clusters are numbered from two. */
  type Table = seq<nat>

  ghost predicate Sized(fat: Table) { 2 <= |fat| <= MAX_CLUSTERS + 2 }

  predicate InVolume(fat: Table, c: int) { 2 <= c < |fat| }

  ghost predicate Distinct(s: seq<nat>) {
    forall i, j :: 0 <= i < j < |s| ==> s[i] != s[j]
  }

  /** The entry of one cluster of a chain: the next one, or an end mark. */
  ghost predicate Linked(fat: Table, s: seq<nat>, i: nat)
    requires i < |s|
  {
    InVolume(fat, s[i]) && if i + 1 < |s| then fat[s[i]] == s[i + 1] else fat[s[i]] >= EOC_MIN
  }

  /** In range, without a repeated cluster, and ended by an end mark. */
  ghost predicate IsChain(fat: Table, s: seq<nat>) {
    Distinct(s) && forall i :: 0 <= i < |s| ==> Linked(fat, s, i)
  }

  ghost function FirstOf(s: seq<nat>): nat { if s == [] then 0 else s[0] }

  lemma ChainAt(fat: Table, s: seq<nat>, i: nat)
    requires IsChain(fat, s) && i < |s| && Sized(fat)
    ensures InVolume(fat, s[i]) && fat[s[i]] != 0
    ensures i + 1 < |s| ==> fat[s[i]] == s[i + 1] && InVolume(fat, s[i + 1]) && s[i + 1] < EOC_MIN
    ensures i + 1 == |s| ==> fat[s[i]] >= EOC_MIN
  {
    assert Linked(fat, s, i);
    if i + 1 < |s| { assert Linked(fat, s, i + 1); }
  }

  lemma Occupied(fat: Table, s: seq<nat>, c: nat)
    requires IsChain(fat, s) && Sized(fat) && c in s
    ensures InVolume(fat, c) && fat[c] != 0
  {
    var i :| 0 <= i < |s| && s[i] == c;
    ChainAt(fat, s, i);
  }

  /** A chain is determined by its entries. */
  lemma ChainKept(fat: Table, now: Table, s: seq<nat>)
    requires IsChain(fat, s) && |now| == |fat| && forall c :: c in s && c < |fat| ==> now[c] == fat[c]
    ensures IsChain(now, s)
  {
    forall i | 0 <= i < |s| ensures Linked(now, s, i) { assert Linked(fat, s, i); }
  }

  /** Following the entries from its first cluster spells exactly the chain. */
  lemma {:induction false} OneChain(fat: Table, s: seq<nat>, t: seq<nat>)
    requires IsChain(fat, s) && IsChain(fat, t) && Sized(fat) && s != [] && t != [] && s[0] == t[0]
    ensures s == t
  {
    ChainAt(fat, s, 0);
    ChainAt(fat, t, 0);
    if |s| > 1 && |t| > 1 {
      ChainTail(fat, s, 1);
      ChainTail(fat, t, 1);
      OneChain(fat, s[1..], t[1..]);
      assert s == [s[0]] + s[1..] && t == [t[0]] + t[1..];
    }
  }

  lemma ChainTail(fat: Table, s: seq<nat>, n: nat)
    requires IsChain(fat, s) && n <= |s|
    ensures IsChain(fat, s[n..])
  {
    var t := s[n..];
    forall i | 0 <= i < |t| ensures Linked(fat, t, i) { assert Linked(fat, s, n + i); }
  }

  lemma ChainNew(fat: Table, c: nat)
    requires InVolume(fat, c)
    ensures IsChain(fat[c := EOC], [c])
  {
  }

  lemma ChainAppend(fat: Table, s: seq<nat>, c: nat)
    requires IsChain(fat, s) && Sized(fat) && s != [] && InVolume(fat, c) && fat[c] == 0
    ensures c !in s && s[|s| - 1] < |fat|
    ensures IsChain(fat[c := EOC][s[|s| - 1] := c], s + [c])
  {
    var n := |s| - 1;
    forall i | 0 <= i < |s| ensures s[i] != c && InVolume(fat, s[i]) { ChainAt(fat, s, i); }
    var now := fat[c := EOC][s[n] := c];
    var t := s + [c];
    forall i | 0 <= i < |t| ensures Linked(now, t, i) {
      if i < n { assert Linked(fat, s, i) && t[i + 1] == s[i + 1] && s[i] != s[n]; }
    }
  }

  /** Ending a chain early leaves two: what was kept and the tail. */
  lemma ChainCut(fat: Table, s: seq<nat>, n: nat)
    requires IsChain(fat, s) && Sized(fat) && 0 < n <= |s|
    ensures s[n - 1] < |fat|
    ensures IsChain(fat[s[n - 1] := EOC], s[..n]) && IsChain(fat[s[n - 1] := EOC], s[n..])
  {
    ChainAt(fat, s, n - 1);
    var now := fat[s[n - 1] := EOC];
    var t := s[..n];
    forall i | 0 <= i < |t| ensures Linked(now, t, i) {
      assert Linked(fat, s, i);
      if i < n - 1 { assert s[i] != s[n - 1] && t[i + 1] == s[i + 1]; }
    }
    ChainTail(fat, s, n);
    forall c | c in s[n..] && c < |fat| ensures now[c] == fat[c] {
      var j :| 0 <= j < |s[n..]| && s[n..][j] == c;
      assert s[n + j] == c && s[n - 1] != s[n + j];
    }
    ChainKept(fat, now, s[n..]);
  }

  // ----- the free count -----

  /** How many of the first clusters are free. */
  ghost function Zeros(fat: Table, n: nat): nat
    requires n <= |fat|
  {
    if n <= 2 then 0 else Zeros(fat, n - 1) + if fat[n - 1] == 0 then 1 else 0
  }

  lemma {:induction false} ZerosUpdate(fat: Table, n: nat, c: nat, v: nat)
    requires n <= |fat| && InVolume(fat, c)
    ensures Zeros(fat[c := v], n) == Zeros(fat, n) + if c >= n || (fat[c] == 0) == (v == 0) then 0 else if v == 0 then 1
      else -1
  {
    if n > 2 { ZerosUpdate(fat, n - 1, c, v); }
  }

  lemma {:induction false} ZerosBound(fat: Table, n: nat)
    requires 2 <= n <= |fat|
    ensures Zeros(fat, n) <= n - 2
    ensures Zeros(fat, n) == 0 <==> forall c :: 2 <= c < n ==> fat[c] != 0
  {
    if n > 2 { ZerosBound(fat, n - 1); }
  }

  // ----- freeing a chain -----

  /** The table with the first clusters of a sequence free. */
  ghost function Freed(fat: Table, s: seq<nat>, n: nat): (now: Table)
    requires n <= |s| && forall i :: 0 <= i < |s| ==> InVolume(fat, s[i])
    ensures |now| == |fat|
  {
    if n == 0 then fat else Freed(fat, s, n - 1)[s[n - 1] := 0]
  }

  lemma {:induction false} FreedAt(fat: Table, s: seq<nat>, n: nat, c: nat)
    requires n <= |s| && (forall i :: 0 <= i < |s| ==> InVolume(fat, s[i])) && c < |fat|
    ensures Freed(fat, s, n)[c] == if c in s[..n] then 0 else fat[c]
  {
    if n > 0 {
      FreedAt(fat, s, n - 1, c);
      assert s[..n] == s[..n - 1] + [s[n - 1]];
    }
  }

  lemma {:induction false} FreedZeros(fat: Table, s: seq<nat>, n: nat)
    requires n <= |s| && IsChain(fat, s) && Sized(fat)
    ensures forall i :: 0 <= i < |s| ==> InVolume(fat, s[i])
    ensures Zeros(Freed(fat, s, n), |fat|) == Zeros(fat, |fat|) + n
    ensures n < |fat| - 1
  {
    forall i | 0 <= i < |s| ensures InVolume(fat, s[i]) { ChainAt(fat, s, i); }
    if n > 0 {
      FreedZeros(fat, s, n - 1);
      FreedAt(fat, s, n - 1, s[n - 1]);
      ChainAt(fat, s, n - 1);
      NotEarlier(s, n - 1);
      ZerosUpdate(Freed(fat, s, n - 1), |fat|, s[n - 1], 0);
    }
    ZerosBound(Freed(fat, s, n), |fat|);
  }

  lemma NotEarlier(s: seq<nat>, n: nat)
    requires Distinct(s) && n < |s|
    ensures s[n] !in s[..n]
  {
  }

  // ----- what an operation on one chain leaves alone -----

  /** Entries in use that belong to no cluster of the chain stay as they are. */
  ghost predicate Framed(fat: Table, now: Table, s: seq<nat>) {
    |now| == |fat| && forall c :: InVolume(fat, c) && fat[c] != 0 && c !in s ==> now[c] == fat[c]
  }

  /** A chain that kept its clusters and gained formerly free ones. */
  ghost predicate Extended(fat: Table, s: seq<nat>, t: seq<nat>) {
    |s| <= |t| && t[..|s|] == s && forall i :: |s| <= i < |t| ==> InVolume(fat, t[i]) && fat[t[i]] == 0
  }

  lemma FramedTrans(fat: Table, mid: Table, now: Table, s: seq<nat>, t: seq<nat>, u: seq<nat>)
    requires Framed(fat, mid, s) && Framed(mid, now, t) && Extended(fat, s, t) && Extended(mid, t, u)
    requires IsChain(mid, t) && Sized(mid)
    ensures Framed(fat, now, s) && Extended(fat, s, u)
  {
    forall c | InVolume(fat, c) && fat[c] != 0 && c !in s ensures now[c] == fat[c] {
      forall i | 0 <= i < |t| ensures t[i] != c { assert i < |s| ==> t[i] == s[i]; }
    }
    assert u[..|s|] == u[..|t|][..|s|];
    forall i | |s| <= i < |u| ensures InVolume(fat, u[i]) && fat[u[i]] == 0 {
      if i < |t| {
        assert u[i] == u[..|t|][i] == t[i];
      } else {
        forall j | 0 <= j < |s| ensures s[j] != u[i] { assert t[j] == s[j]; ChainAt(mid, t, j); }
      }
    }
  }

  // ----- all the files of a volume -----

  type Chains = map<nat, seq<nat>>

  /** Every file has a chain, and no cluster belongs to two of them. */
  ghost predicate AllChains(fat: Table, chains: Chains) {
    && (forall f :: f in chains ==> IsChain(fat, chains[f]))
    && (forall f, g, c :: f in chains && g in chains && c in chains[f] && c in chains[g] ==> f == g)
  }

  /** An operation that minds its frame and takes only free clusters keeps all
      chains of the volume apart. */
  lemma StillApart(fat: Table, now: Table, chains: Chains, f: nat, s: seq<nat>)
    requires AllChains(fat, chains) && Sized(fat) && f in chains && Framed(fat, now, chains[f])
    requires IsChain(now, s) && forall c :: c in s ==> c in chains[f] || (InVolume(fat, c) && fat[c] == 0)
    ensures AllChains(now, chains[f := s])
    ensures forall g :: g in chains && g != f ==> forall c :: c in chains[g] ==>
      InVolume(fat, c) && fat[c] != 0 && c !in chains[f]
  {
    forall g, c | g in chains && g != f && c in chains[g]
      ensures InVolume(fat, c) && fat[c] != 0 && c !in chains[f]
    {
      Occupied(fat, chains[g], c);
    }
    forall g | g in chains && g != f ensures IsChain(now, chains[g]) {
      ChainKept(fat, now, chains[g]);
    }
  }

  /** No reachable cluster is free. */
  lemma ReachableInUse(fat: Table, chains: Chains, f: nat, c: nat)
    requires AllChains(fat, chains) && Sized(fat) && f in chains && c in chains[f]
    ensures InVolume(fat, c) && fat[c] != 0
  {
    Occupied(fat, chains[f], c);
  }
}
