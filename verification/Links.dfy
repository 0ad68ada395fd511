/** Linked lists kept as link fields of numbered nodes; -1 is the null link. */
module Links {
  ghost predicate Unique(s: seq<nat>) {
    forall i, j :: 0 <= i < j < |s| ==> s[i] != s[j]
  }

  function First(s: seq<nat>): int { if s == [] then -1 else s[0] }
  function Last(s: seq<nat>): int { if s == [] then -1 else s[|s| - 1] }

  function After(s: seq<nat>, i: nat): int { if i + 1 < |s| then s[i + 1] else -1 }
  function Before(s: seq<nat>, i: nat): int
    requires i <= |s|
  {
    if i > 0 then s[i - 1] else -1
  }

  /** `s` is what following `next` from `head` visits. */
  ghost predicate Forward(next: seq<int>, head: int, s: seq<nat>) {
    && head == First(s)
    && forall i :: 0 <= i < |s| ==> s[i] < |next| && next[s[i]] == After(s, i)
  }

  /** `s` is what following `prev` from `tail` visits, backwards. */
  ghost predicate Backward(prev: seq<int>, tail: int, s: seq<nat>) {
    && tail == Last(s)
    && forall i :: 0 <= i < |s| ==> s[i] < |prev| && prev[s[i]] == Before(s, i)
  }

  function Cut(s: seq<nat>, k: nat): (c: seq<nat>)
    requires k < |s|
    ensures |c| == |s| - 1
  {
    s[..k] + s[k + 1..]
  }

  lemma CutFacts(s: seq<nat>, k: nat)
    requires k < |s| && Unique(s)
    ensures Unique(Cut(s, k)) && s[k] !in Cut(s, k)
    ensures forall i :: 0 <= i < |s| - 1 ==> Cut(s, k)[i] == if i < k then s[i] else s[i + 1]
    ensures forall x :: x in s <==> x == s[k] || x in Cut(s, k)
  {
    var c := Cut(s, k);
    forall x | x in s ensures x == s[k] || x in c {
      var i :| 0 <= i < |s| && s[i] == x;
      if i < k { assert c[i] == x; } else if i > k { assert c[i - 1] == x; }
    }
  }

  /** Unlinking the k-th node: its predecessor (or the head) skips it. */
  lemma ForwardCut(next: seq<int>, head: int, s: seq<nat>, k: nat, next': seq<int>, head': int)
    requires Forward(next, head, s) && Unique(s) && k < |s| && |next'| == |next|
    requires forall x :: 0 <= x < |next| && x != s[k] && (k == 0 || x != s[k - 1]) ==> next'[x] == next[x]
    requires if k == 0 then head' == next[s[k]] else head' == head && next'[s[k - 1]] == next[s[k]]
    ensures Forward(next', head', Cut(s, k))
  {
    hide Unique;
    var c := Cut(s, k);
    assert next[s[k]] == After(s, k);
    forall i | 0 <= i < |c| ensures c[i] < |next'| && next'[c[i]] == After(c, i) {
      var j := if i < k then i else i + 1;
      Neighbours(s, k, i);
      assert next[s[j]] == After(s, j);
      Different(s, j, k);
      if k > 0 && j != k - 1 { Different(s, j, k - 1); }
    }
  }

  lemma Different(s: seq<nat>, i: nat, j: nat)
    requires Unique(s) && i < |s| && j < |s| && i != j
    ensures s[i] != s[j]
  {
  }

  lemma Neighbours(s: seq<nat>, k: nat, i: nat)
    requires k < |s| && i < |s| - 1
    ensures var j := if i < k then i else i + 1;
      && Cut(s, k)[i] == s[j]
      && After(Cut(s, k), i) == (if i + 1 == k then After(s, k) else After(s, j))
      && Before(Cut(s, k), i) == (if i == k then Before(s, k) else Before(s, j))
  {
  }

  lemma BackwardCut(prev: seq<int>, tail: int, s: seq<nat>, k: nat, prev': seq<int>, tail': int)
    requires Backward(prev, tail, s) && Unique(s) && k < |s| && |prev'| == |prev|
    requires forall x :: 0 <= x < |prev| && x != s[k] && (k == |s| - 1 || x != s[k + 1]) ==> prev'[x] == prev[x]
    requires if k == |s| - 1 then tail' == prev[s[k]] else tail' == tail && prev'[s[k + 1]] == prev[s[k]]
    ensures Backward(prev', tail', Cut(s, k))
  {
    hide Unique;
    var c := Cut(s, k);
    assert prev[s[k]] == Before(s, k);
    forall i | 0 <= i < |c| ensures c[i] < |prev'| && prev'[c[i]] == Before(c, i) {
      var j := if i < k then i else i + 1;
      Neighbours(s, k, i);
      assert prev[s[j]] == Before(s, j);
      Different(s, j, k);
      if k < |s| - 1 && j != k + 1 { Different(s, j, k + 1); }
    }
  }

  lemma ForwardPush(next: seq<int>, head: int, s: seq<nat>, x: nat)
    requires Forward(next, head, s) && x < |next| && x !in s
    ensures Forward(next[x := head], x, [x] + s)
  {
    var t := [x] + s;
    forall i | 0 <= i < |t| ensures t[i] < |next| && next[x := head][t[i]] == After(t, i) {
      if i > 0 {
        assert t[i] == s[i - 1] && next[s[i - 1]] == After(s, i - 1);
        assert After(t, i) == After(s, i - 1);
      }
    }
  }

  lemma BackwardPush(prev: seq<int>, tail: int, s: seq<nat>, x: nat, prev': seq<int>)
    requires Backward(prev, tail, s) && x < |prev| && x !in s && |prev'| == |prev| && Unique(s)
    requires prev'[x] == -1 && (s != [] ==> prev'[s[0]] == x)
    requires forall y :: 0 <= y < |prev| && y != x && (s == [] || y != s[0]) ==> prev'[y] == prev[y]
    ensures Backward(prev', if s == [] then x else tail, [x] + s)
  {
    var t := [x] + s;
    forall i | 0 <= i < |t| ensures t[i] < |prev'| && prev'[t[i]] == Before(t, i) {
      if i > 0 {
        assert t[i] == s[i - 1] && prev[s[i - 1]] == Before(s, i - 1);
        assert Before(t, i) == if i == 1 then x else Before(s, i - 1);
      }
    }
  }

  /** Links of other nodes do not matter. */
  lemma ForwardFrame(next: seq<int>, next': seq<int>, head: int, s: seq<nat>)
    requires Forward(next, head, s) && |next'| == |next|
    requires forall x :: x in s && x < |next| ==> next'[x] == next[x]
    ensures Forward(next', head, s)
  {
    forall i | 0 <= i < |s| ensures s[i] < |next'| && next'[s[i]] == After(s, i) { assert s[i] in s; }
  }
}
