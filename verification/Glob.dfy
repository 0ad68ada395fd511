/** glob_match of user/bin/find.c: star, question mark and bracket sets. The
    matcher remembers only the last star; that loses no match. */
module Glob {
  import opened Patterns

  const ANY := '?' as int
  const BANG := '!' as int

  // ----- the language of a pattern -----

  predicate Negated(P: Text, p: nat) { Is(P, p + 1, BANG) || Is(P, p + 1, CARET) }

  /** Where the members of a bracket set begin. */
  function Members(P: Text, p: nat): nat { if Negated(P, p) then p + 2 else p + 1 }

  /** The bracket that ends the set opened at a position, or the end. A bracket
      right at the front is a member. */
  function Closer(P: Text, p: nat): nat {
    var m := Members(P, p);
    FindClose(P, if Is(P, m, CLOSE) then m + 1 else m)
  }

  /** A member or a range of the set. */
  predicate InSet(P: Text, p: nat, close: nat, c: int)
    requires close <= |P|
    decreases close - p
  {
    p < close &&
    if p + 2 < close && P[p + 1] == DASH then P[p] <= c <= P[p + 2] || InSet(P, p + 3, close, c)
    else P[p] == c || InSet(P, p + 1, close, c)
  }

  predicate IsSet(P: Text, p: nat) { Is(P, p, OPEN) && Closer(P, p) < |P| }

  /** The position after the element at a position. */
  function Next(P: Text, p: nat): (n: nat)
    requires p < |P|
    ensures p < n <= |P|
  {
    if IsSet(P, p) then Closer(P, p) + 1 else p + 1
  }

  /** The characters that an element other than a star stands for. */
  predicate Accepts(P: Text, p: nat, c: int)
    requires p < |P|
  {
    if P[p] == ANY then true
    else if IsSet(P, p) then InSet(P, Members(P, p), Closer(P, p), c) != Negated(P, p)
    else P[p] == c
  }

  /** The rest of the text is in the language of the rest of the pattern. */
  ghost predicate Matches(P: Text, p: nat, T: Text, t: nat)
    decreases |P| - p, 0
  {
    if p >= |P| then t == |T|
    else if P[p] == STAR then Later(P, p + 1, T, t)
    else t < |T| && Accepts(P, p, T[t]) && Matches(P, Next(P, p), T, t + 1)
  }

  /** The same for some later rest of the text: a star stands for any characters. */
  ghost predicate Later(P: Text, p: nat, T: Text, t: nat)
    decreases |P| - p, 1
  {
    exists k :: t <= k <= |T| && Matches(P, p, T, k)
  }

  lemma Witness(P: Text, p: nat, T: Text, t: nat) returns (k: nat)
    requires Later(P, p, T, t)
    ensures t <= k <= |T| && Matches(P, p, T, k)
  {
    assert exists j :: t <= j <= |T| && Matches(P, p, T, j);
    k :| t <= k <= |T| && Matches(P, p, T, k);
  }

  // ----- elements between two stars -----

  /** So many elements, none of them a star, lead from one position to another. */
  ghost predicate Run(P: Text, from: nat, p: nat, n: nat)
    decreases n
  {
    if n == 0 then p == from
    else from < |P| && P[from] != STAR && Run(P, Next(P, from), p, n - 1)
  }

  lemma {:induction false} RunMore(P: Text, from: nat, p: nat, n: nat)
    requires Run(P, from, p, n) && p < |P| && P[p] != STAR
    ensures Run(P, from, Next(P, p), n + 1)
    decreases n
  {
    if n > 0 { RunMore(P, Next(P, from), p, n - 1); }
  }

  /** A match of the elements of a run, wherever it starts, leaves a match of what follows. */
  lemma {:induction false} RunMatch(P: Text, from: nat, p: nat, n: nat, T: Text, k: nat)
    requires Run(P, from, p, n) && Matches(P, from, T, k) && k <= |T|
    ensures k + n <= |T| && Matches(P, p, T, k + n)
    decreases n
  {
    if n > 0 { RunMatch(P, Next(P, from), p, n - 1, T, k + 1); }
  }

  /** At the next star, everything the previous star could still do is covered. */
  lemma NewStar(P: Text, star: nat, st: nat, p: nat, T: Text, t: nat)
    requires st <= t <= |T| && Run(P, star, p, t - st) && Is(P, p, STAR)
    requires Matches(P, star, T, st) <==> Matches(P, p, T, t)
    ensures Later(P, star, T, st) <==> Later(P, p + 1, T, t)
  {
    if Later(P, star, T, st) {
      var k := Witness(P, star, T, st);
      RunMatch(P, star, p, t - st, T, k);
      var j := Witness(P, p + 1, T, k + (t - st));
      assert t <= j;
    }
    if Later(P, p + 1, T, t) { assert Matches(P, p, T, t); }
  }

  /** At the end of the text the last star can do no better. */
  lemma AtEnd(P: Text, star: nat, st: nat, p: nat, T: Text)
    requires st <= |T| && Run(P, star, p, |T| - st)
    requires Matches(P, star, T, st) <==> Matches(P, p, T, |T|)
    ensures Later(P, star, T, st) <==> Matches(P, p, T, |T|)
  {
    if Later(P, star, T, st) {
      var k := Witness(P, star, T, st);
      RunMatch(P, star, p, |T| - st, T, k);
    }
  }

  // ----- the matcher -----

  /** The bracket set at a position, tried on a character. */
  method TrySet(P: Text, p: nat, c: int) returns (ok: bool, next: nat)
    requires p < |P| && P[p] == OPEN
    ensures ok == Accepts(P, p, c) && next == Next(P, p)
  {
    var q := p + 1;
    var negate := q < |P| && (P[q] == BANG || P[q] == CARET);
    if negate { q := q + 1; }
    var close := if q < |P| && P[q] == CLOSE then q + 1 else q;
    ghost var from := close;
    while close < |P| && P[close] != CLOSE
      invariant FindClose(P, close) == FindClose(P, from)
    {
      close := close + 1;
    }
    if close >= |P| { return P[p] == c, p + 1; }
    var found := false;
    while q < close
      invariant found || InSet(P, q, close, c) <==> InSet(P, Members(P, p), close, c)
    {
      if q + 2 < close && P[q + 1] == DASH {
        if P[q] <= c <= P[q + 2] { found := true; }
        q := q + 2;
      } else if P[q] == c {
        found := true;
      }
      q := q + 1;
    }
    return found != negate, close + 1;
  }

  /** glob_match: exactly the texts of the language, and it always ends. */
  method GlobMatch(P: Text, T: Text) returns (matched: bool)
    ensures matched <==> Matches(P, 0, T, 0)
  {
    hide Accepts, Next, Run;
    var p: nat, t: nat := 0, 0;
    var starred, star: nat, st: nat := false, 0, 0;
    while t < |T|
      invariant 0 <= t <= |T| && p <= |P|
      invariant !starred ==> (Matches(P, 0, T, 0) <==> Matches(P, p, T, t))
      invariant starred ==> star <= |P| && st <= t && Run(P, star, p, t - st)
      invariant starred ==> (Matches(P, star, T, st) <==> Matches(P, p, T, t))
      invariant starred ==> (Matches(P, 0, T, 0) <==> Later(P, star, T, st))
      decreases |T| - (if starred then st else -1), |P| - p
    {
      if p < |P| && P[p] == STAR {
        if starred { NewStar(P, star, st, p, T, t); }
        p := p + 1;
        starred, star, st := true, p, t;
        RunNone(P, p);
        continue;
      }
      var ok, next := false, p + 1;
      if p < |P| {
        if P[p] == ANY {
          ok := true;
        } else if P[p] == OPEN {
          ok, next := TrySet(P, p, T[t]);
        } else {
          ok := P[p] == T[t];
        }
        Element(P, p, T[t]);
      }
      if ok {
        if starred { RunMore(P, star, p, t - st); }
        p, t := next, t + 1;
      } else if starred {
        Restart(P, star, T, st);
        st := st + 1;
        p, t := star, st;
        RunNone(P, star);
      } else {
        return false;
      }
    }
    if starred { AtEnd(P, star, st, p, T); }
    while p < |P| && P[p] == STAR
      invariant p <= |P| && (Matches(P, 0, T, 0) <==> Matches(P, p, T, |T|))
    {
      OnlyHere(P, p, T);
      p := p + 1;
    }
    return p == |P|;
  }

  lemma RunNone(P: Text, p: nat)
    ensures Run(P, p, p, 0)
  {
  }

  lemma Element(P: Text, p: nat, c: int)
    requires p < |P|
    ensures p < Next(P, p) <= |P|
    ensures P[p] == ANY ==> Accepts(P, p, c) && Next(P, p) == p + 1
    ensures P[p] != ANY && P[p] != OPEN ==> (Accepts(P, p, c) <==> P[p] == c) && Next(P, p) == p + 1
  {
  }

  /** A start that fails is no loss to the star. */
  lemma Restart(P: Text, star: nat, T: Text, st: nat)
    requires st < |T| && !Matches(P, star, T, st)
    ensures Later(P, star, T, st) <==> Later(P, star, T, st + 1)
  {
  }

  lemma OnlyHere(P: Text, p: nat, T: Text)
    requires Is(P, p, STAR)
    ensures Matches(P, p, T, |T|) <==> Matches(P, p + 1, T, |T|)
  {
  }
}
