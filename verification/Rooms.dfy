/** Room in a directory, as its slots show it: free stretches, the 8.3 names in use,
    the slots a name needs, and what deleting an entry leaves. */
module Rooms {
  import opened Unicode
  import opened Names
  import opened Listing

  const MAX_ENTRIES := 65536
  const MAX_TAIL := 999999

  // ----- free slots -----

  predicate Free(s: Slot) { s == Deleted || s == End }

  /** Every slot of a stretch is free. */
  ghost predicate FreeRun(slots: seq<Slot>, from: nat, till: nat) {
    till <= |slots| && forall i :: from <= i < till ==> Free(slots[i])
  }

  /** So many free slots in a row from a place on. */
  ghost predicate RunAt(slots: seq<Slot>, start: nat, need: nat) {
    start + need <= |slots| && FreeRun(slots, start, start + need)
  }

  ghost predicate HasRun(slots: seq<Slot>, need: nat) { exists start: nat :: RunAt(slots, start, need) }

  /** How many slots are free at the very end. */
  function Trailing(slots: seq<Slot>): (n: nat)
    ensures n <= |slots|
  {
    if slots == [] || !Free(slots[|slots| - 1]) then 0 else 1 + Trailing(slots[..|slots| - 1])
  }

  lemma {:induction false} TrailingIs(slots: seq<Slot>, k: nat)
    requires k <= |slots|
    ensures FreeRun(slots, |slots| - k, |slots|) <==> k <= Trailing(slots)
  {
    var n := |slots| - 1;
    if k > 0 {
      TrailingIs(slots[..n], k - 1);
      assert FreeRun(slots, |slots| - k, |slots|) <==> Free(slots[n]) && FreeRun(slots[..n], n - (k - 1), n) by {
        assert forall i :: |slots| - k <= i < n ==> slots[i] == slots[..n][i];
      }
    }
  }

  /** One slot more: what can end there. */
  lemma OneSlot(slots: seq<Slot>, p: nat, need: nat)
    requires p < |slots| && need > 0
    requires forall s: nat :: s + need <= p ==> !RunAt(slots, s, need)
    ensures Trailing(slots[..p + 1]) == if Free(slots[p]) then Trailing(slots[..p]) + 1 else 0
    ensures Trailing(slots[..p + 1]) < need ==> forall s: nat :: s + need <= p + 1 ==> !RunAt(slots, s, need)
  {
    var t := slots[..p + 1];
    assert t[..p] == slots[..p];
    if Trailing(t) < need {
      forall s: nat | s + need <= p + 1 ensures !RunAt(slots, s, need) {
        if s + need == p + 1 && RunAt(slots, s, need) {
          assert FreeRun(t, s, |t|);
          TrailingIs(t, need);
        }
      }
    }
  }

  // ----- growing -----

  /** Whether the volume gives the clusters still missing, and the directory may have
      them. */
  ghost predicate Grantable(grants: nat -> bool, perCluster: nat, have: nat, need: nat, clusters: nat, asked: nat)
    requires perCluster > 0
    decreases need - have
  {
    have >= need ||
      (clusters + 1 <= MAX_ENTRIES / perCluster && grants(asked) &&
        Grantable(grants, perCluster, have + perCluster, need, clusters + 1, asked + 1))
  }

  // ----- 8.3 names -----

  predicate Carries(s: Slot, raw: Bytes) {
    (s.Short? && s.entry.raw == raw) || ((s.Label? || s.Dots?) && s.raw == raw)
  }

  /** Some slot has this 8.3 name. */
  ghost predicate Taken(slots: seq<Slot>, raw: Bytes) { exists p :: 0 <= p < |slots| && Carries(slots[p], raw) }

  function Decimal(n: nat): (d: Bytes)
    ensures n < 10 ==> |d| == 1
    ensures 10 <= n < 100 ==> |d| == 2
    ensures 100 <= n < 1000 ==> |d| == 3
    ensures 1000 <= n < 10000 ==> |d| == 4
    ensures 10000 <= n < 100000 ==> |d| == 5
    ensures 100000 <= n < 1000000 ==> |d| == 6
  {
    if n < 10 then [0x30 + n] else Decimal(n / 10) + [0x30 + n % 10]
  }

  /** NAME~N.EXT with as much of the name as fits. */
  function TailRaw(g: Gen, n: nat): (raw: Bytes)
    requires |g.raw| == 11 && 1 <= n <= MAX_TAIL && 1 <= g.baseLen <= 8
    ensures |raw| == 11
  {
    var d := Decimal(n);
    var keep := if g.baseLen > 7 - |d| then 7 - |d| else g.baseLen;
    Pad(g.raw[..keep] + [0x7E] + d, 8) + g.raw[8..]
  }

  /** The n-th numbered 8.3 form of a name. */
  ghost function Numbered(name: Bytes, n: nat): Bytes
    requires 1 <= n <= MAX_TAIL && 1 <= |Trim(RawForm(name)[..8])| <= 8
  {
    TailRaw(Gen(RawForm(name), false, false, true, true, |Trim(RawForm(name)[..8])|), n)
  }

  /** The name has no 8.3 form of its own, and every numbered one is in use. */
  ghost predicate Crowded(slots: seq<Slot>, name: Bytes) {
    && !EightThree(name) && 1 <= |Trim(RawForm(name)[..8])| <= 8
    && forall n :: 1 <= n <= MAX_TAIL ==> Taken(slots, Numbered(name, n))
  }

  lemma {:induction false} DecimalApart(n: nat, m: nat)
    requires Decimal(n) == Decimal(m)
    ensures n == m
  {
    var d := Decimal(n);
    DecimalSome(n / 10);
    DecimalSome(m / 10);
    if n >= 10 && m >= 10 {
      assert d[..|d| - 1] == Decimal(n / 10) == Decimal(m / 10);
      DecimalApart(n / 10, m / 10);
      assert d[|d| - 1] == 0x30 + n % 10 == 0x30 + m % 10;
    }
  }

  lemma {:induction false} DecimalSome(n: nat)
    ensures Decimal(n) != [] && forall i :: 0 <= i < |Decimal(n)| ==> 0x30 <= Decimal(n)[i] <= 0x39
  {
    if n >= 10 { DecimalSome(n / 10); }
  }

  /** Different numbers behind the last tilde. */
  lemma TailsApart(x: Bytes, d: Bytes, y: Bytes, e: Bytes)
    requires x + [0x7E] + d == y + [0x7E] + e
    requires (forall i :: 0 <= i < |d| ==> d[i] <= 0x39) && forall i :: 0 <= i < |e| ==> e[i] <= 0x39
    ensures d == e
  {
    var s, t := x + [0x7E] + d, y + [0x7E] + e;
    assert s[|x|] == 0x7E && t[|y|] == 0x7E;
    assert |x| == |y|;
    assert d == s[|x| + 1..] && e == t[|y| + 1..];
  }

  /** No two numbered forms of a name are the same. */
  lemma FormsApart(g: Gen, n: nat, m: nat)
    requires |g.raw| == 11 && 1 <= n <= MAX_TAIL && 1 <= m <= MAX_TAIL && 1 <= g.baseLen <= 8
    requires TailRaw(g, n) == TailRaw(g, m)
    ensures n == m
  {
    hide Trim, Pad, Decimal;
    var d, e := Decimal(n), Decimal(m);
    DecimalSome(n);
    DecimalSome(m);
    DecimalFits(n);
    DecimalFits(m);
    var i, j := if g.baseLen > 7 - |d| then 7 - |d| else g.baseLen, if g.baseLen > 7 - |e| then 7 - |e| else g.baseLen;
    var x, y := g.raw[..i], g.raw[..j];
    TrimPad(x + [0x7E] + d, 8);
    TrimPad(y + [0x7E] + e, 8);
    assert TailRaw(g, n)[..8] == Pad(x + [0x7E] + d, 8) by { PadLength(x + [0x7E] + d); }
    assert TailRaw(g, m)[..8] == Pad(y + [0x7E] + e, 8) by { PadLength(y + [0x7E] + e); }
    TailsApart(x, d, y, e);
    DecimalApart(n, m);
  }

  lemma DecimalFits(n: nat)
    requires n <= MAX_TAIL
    ensures |Decimal(n)| <= 6
  {
  }

  lemma PadLength(s: Bytes)
    requires |s| <= 8
    ensures |Pad(s, 8)| == 8
  {
  }

  /** Where the first numbered forms are: in as many slots. */
  lemma {:induction false} Spots(slots: seq<Slot>, name: Bytes, k: nat) returns (s: set<nat>)
    requires k <= MAX_TAIL && 1 <= |Trim(RawForm(name)[..8])| <= 8
    requires forall n :: 1 <= n <= k ==> Taken(slots, Numbered(name, n))
    ensures |s| == k
    ensures forall p :: p in s ==> p < |slots| && exists n :: 1 <= n <= k && Carries(slots[p], Numbered(name, n))
  {
    hide Numbered, RawForm, Trim;
    if k == 0 { return {}; }
    s := Spots(slots, name, k - 1);
    var q: nat :| q < |slots| && Carries(slots[q], Numbered(name, k));
    if q in s {
      var n :| 1 <= n <= k - 1 && Carries(slots[q], Numbered(name, n));
      NumbersApart(name, n, k);
    }
    s := s + {q};
  }

  lemma NumbersApart(name: Bytes, n: nat, m: nat)
    requires 1 <= n <= MAX_TAIL && 1 <= m <= MAX_TAIL && 1 <= |Trim(RawForm(name)[..8])| <= 8
    requires Numbered(name, n) == Numbered(name, m)
    ensures n == m
  {
    FormsApart(Gen(RawForm(name), false, false, true, true, |Trim(RawForm(name)[..8])|), n, m);
  }

  /** The numbered forms never run out: there are more of them than a directory has slots. */
  lemma NeverCrowded(slots: seq<Slot>, name: Bytes)
    requires |slots| < MAX_TAIL
    ensures !Crowded(slots, name)
  {
    hide Numbered, RawForm, Trim, EightThree;
    if Crowded(slots, name) {
      var s := Spots(slots, name, MAX_TAIL);
      Within(s, |slots|);
    }
  }

  lemma {:induction false} Within(s: set<nat>, n: nat)
    requires forall p :: p in s ==> p < n
    ensures |s| <= n
  {
    if n == 0 {
      assert s == {};
    } else {
      Within(s - {n - 1}, n - 1);
    }
  }

  // ----- how many slots a name needs -----

  /** How many UTF-16 units UTF-8 text has: one for each byte that begins a character,
      one more if that takes four bytes. */
  function UnitCount(s: Bytes): nat {
    if s == [] then 0
    else
      var c := s[|s| - 1];
      UnitCount(s[..|s| - 1]) + if 0x80 <= c < 0xC0 then 0 else if c >= 0xF0 then 2 else 1
  }

  lemma UnitOne(s: Bytes, c: nat)
    ensures UnitCount(s + [c]) == UnitCount(s) + if 0x80 <= c < 0xC0 then 0 else if c >= 0xF0 then 2 else 1
  {
    assert (s + [c])[..|s|] == s;
  }

  lemma UnitPoint(s: Bytes, cp: nat)
    requires Scalar(cp)
    ensures UnitCount(s + Utf8One(cp)) == UnitCount(s) + |Utf16One(cp)|
  {
    var b := Utf8One(cp);
    UnitOne(s, b[0]);
    if |b| == 1 {
      assert s + b == s + [b[0]];
    } else {
      UnitOne(s + [b[0]], b[1]);
      if |b| == 2 {
        assert s + b == s + [b[0]] + [b[1]];
      } else {
        UnitOne(s + [b[0]] + [b[1]], b[2]);
        if |b| == 3 {
          assert s + b == s + [b[0]] + [b[1]] + [b[2]];
        } else {
          UnitOne(s + [b[0]] + [b[1]] + [b[2]], b[3]);
          assert s + b == s + [b[0]] + [b[1]] + [b[2]] + [b[3]];
        }
      }
    }
  }

  lemma {:induction false} UnitsAre(cps: Points)
    requires AllScalar(cps)
    ensures |Utf16(cps)| == UnitCount(Utf8(cps))
  {
    hide Utf8One, Utf16One;
    if cps != [] {
      UnitsAre(cps[..|cps| - 1]);
      UnitPoint(Utf8(cps[..|cps| - 1]), cps[|cps| - 1]);
    }
  }

  /** The slots a name takes: one, and those of the long name if the 8.3 form does not
      show it byte for byte. */
  ghost function Needed(name: Bytes): nat {
    1 + if Shows(name, RawForm(name)) then 0 else (UnitCount(name) + PER_SLOT - 1) / PER_SLOT
  }

  // ----- what deleting leaves -----

  /** Where the long name before a slot begins. */
  function LongStart(slots: seq<Slot>, pos: nat): (start: nat)
    requires pos <= |slots|
    ensures start <= pos
  {
    if pos > 0 && slots[pos - 1].Long? then LongStart(slots, pos - 1) else pos
  }

  /** The slots with one entry deleted, its long name included. */
  function Cleared(slots: seq<Slot>, pos: nat): (c: seq<Slot>)
    ensures |c| == |slots|
  {
    if pos >= |slots| then slots
    else
      var start := LongStart(slots, pos);
      slots[..start] + seq(pos + 1 - start, _ => Deleted) + slots[pos + 1..]
  }
}
