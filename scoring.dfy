/**
 * Scoring of one guess against the normalised secret: the two-pass algorithm
 * of `verifier_mot`. The first pass credits exact positions and empties their
 * slots of a pool holding the secret's letters; the second pass credits each
 * remaining guess letter that is still in the pool, emptying its FIRST
 * remaining occurrence.
 *
 * The passes are specified by functions (`ExactMarks`, `Credit`,
 * `AfterCredits`, `Score`), `ScoreGuess` runs them in place over an array,
 * and `Expected` is an independent closed form that `Score` is proved to
 * equal.
 */
module Scoring {
  import opened Wrappers

  /** The mark of one guess position: the letter upper-cased, the letter as is, or ".". */
  datatype Mark = Correct(letter: char) | Present(letter: char) | Absent

  /** The mutable copy of the secret: a slot is emptied once its letter is credited. */
  type Pool = seq<Option<char>>

  function Min(a: int, b: int): (r: int)
    ensures r <= a && r <= b && (r == a || r == b)
  {
    if a <= b then a else b
  }

  /** The marks after the first pass: exact positions are Correct, all others Absent. */
  function ExactMarks(g: string, s: string): (r: seq<Mark>)
    requires |g| == |s|
    ensures |r| == |g|
  {
    seq(|g|, j requires 0 <= j < |g| => if g[j] == s[j] then Correct(g[j]) else Absent)
  }

  /** The letters of `a` at the positions where `a` and `b` differ. `Unmatched(s, g)` is
      the pool after the first pass; `Unmatched(g, s)` the guess letters the second pass examines. */
  function Unmatched(a: string, b: string): (r: Pool)
    requires |a| == |b|
    ensures |r| == |a|
  {
    seq(|a|, j requires 0 <= j < |a| => if a[j] == b[j] then None else Some(a[j]))
  }

  /** `list.index`: the position of the first occurrence of `x`. */
  function FirstIndex(p: Pool, x: Option<char>): (k: nat)
    requires x in p
    ensures k < |p| && p[k] == x
    ensures forall j :: 0 <= j < k ==> p[j] != x
  {
    if p[0] == x then 0 else 1 + FirstIndex(p[1..], x)
  }

  /** The marks and the pool part-way through the second pass. */
  datatype Board = Board(marks: seq<Mark>, pool: Pool)

  /** One iteration of the second pass, at position `i`. */
  function Credit(g: string, s: string, b: Board, i: nat): (r: Board)
    requires |g| == |s| == |b.marks| == |b.pool| && i < |g|
    ensures |r.marks| == |g| && |r.pool| == |g|
  {
    if g[i] != s[i] && Some(g[i]) in b.pool then
      Board(b.marks[i := Present(g[i])], b.pool[FirstIndex(b.pool, Some(g[i])) := None])
    else
      b
  }

  /** The board after the first pass and the first `k` iterations of the second. */
  function AfterCredits(g: string, s: string, k: nat): (r: Board)
    requires |g| == |s| && k <= |g|
    ensures |r.marks| == |g| && |r.pool| == |g|
  {
    if k == 0 then Board(ExactMarks(g, s), Unmatched(s, g))
    else Credit(g, s, AfterCredits(g, s, k - 1), k - 1)
  }

  /** The result of scoring guess `g` against secret `s`. */
  function Score(g: string, s: string): (r: seq<Mark>)
    requires |g| == |s|
    ensures |r| == |g|
  {
    AfterCredits(g, s, |g|).marks
  }

  /** How many unmatched secret positions carry `c`. */
  function Available(g: string, s: string, c: char): (r: nat)
    requires |g| == |s|
  {
    multiset(Unmatched(s, g))[Some(c)]
  }

  /** How many unmatched guess positions before `k` carry `c`. */
  function Used(g: string, s: string, c: char, k: nat): (r: nat)
    requires |g| == |s| && k <= |g|
  {
    multiset(Unmatched(g, s)[..k])[Some(c)]
  }

  /** Closed form of the score: exact positions are Correct; a misplaced letter is Present
      exactly when fewer misplaced guess positions before it carry the same letter than
      there are unmatched secret positions carrying it; otherwise it is Absent. */
  function Expected(g: string, s: string): (r: seq<Mark>)
    requires |g| == |s|
    ensures |r| == |g|
  {
    seq(|g|, i requires 0 <= i < |g| =>
      if g[i] == s[i] then Correct(g[i])
      else if Used(g, s, g[i], i) < Available(g, s, g[i]) then Present(g[i])
      else Absent)
  }

  lemma UsedStep(g: string, s: string, k: nat, c: char)
    requires |g| == |s| && k < |g|
    ensures Used(g, s, c, k + 1) == Used(g, s, c, k) + (if g[k] != s[k] && g[k] == c then 1 else 0)
  {
    var u := Unmatched(g, s);
    assert u[..k + 1] == u[..k] + [u[k]];
  }

  /** A position at or after `k` still carries its first-pass mark after `k` iterations. */
  lemma {:induction false} MarkPending(g: string, s: string, k: nat, j: nat)
    requires |g| == |s| && k <= j < |g|
    ensures AfterCredits(g, s, k).marks[j] == ExactMarks(g, s)[j]
  {
    if k > 0 {
      MarkPending(g, s, k - 1, j);
    }
  }

  /** After `k` iterations the pool holds each letter as often as it is available
      and not yet used up. */
  lemma {:induction false} PoolCount(g: string, s: string, k: nat, c: char)
    requires |g| == |s| && k <= |g|
    ensures multiset(AfterCredits(g, s, k).pool)[Some(c)] == Available(g, s, c) - Min(Available(g, s, c), Used(g, s, c, k))
  {
    if k == 0 {
      NothingUsedAtFirst(g, s, c);
    } else {
      PoolCount(g, s, k - 1, c);
      PoolCount(g, s, k - 1, g[k - 1]);
      PoolStep(g, s, k, c);
    }
  }

  // The empty-prefix assertion keeps this base case cheap for the solver.
  lemma NothingUsedAtFirst(g: string, s: string, c: char)
    requires |g| == |s|
    ensures Used(g, s, c, 0) == 0
    ensures AfterCredits(g, s, 0) == Board(ExactMarks(g, s), Unmatched(s, g))
  {
    assert Unmatched(g, s)[..0] == [];
  }

  /** Iteration `k - 1` removes a `c` from the pool exactly when it uses up an available `c`. */
  lemma PoolStep(g: string, s: string, k: nat, c: char)
    requires |g| == |s| && 0 < k <= |g|
    requires var i := k - 1;
      multiset(AfterCredits(g, s, i).pool)[Some(g[i])] == Available(g, s, g[i]) - Min(Available(g, s, g[i]), Used(g, s, g[i], i))
    ensures multiset(AfterCredits(g, s, k).pool)[Some(c)] + Min(Available(g, s, c), Used(g, s, c, k))
         == multiset(AfterCredits(g, s, k - 1).pool)[Some(c)] + Min(Available(g, s, c), Used(g, s, c, k - 1))
  {
    var i := k - 1;
    var b := AfterCredits(g, s, i);
    UsedStep(g, s, i, c);
    assert Some(g[i]) in b.pool <==> multiset(b.pool)[Some(g[i])] > 0;
    if g[i] != s[i] && Some(g[i]) in b.pool {
      PoolStepCredit(g, s, k, c);
    } else {
      assert AfterCredits(g, s, k).pool == b.pool;
      if c == g[i] && g[i] != s[i] {
        assert Available(g, s, c) <= Used(g, s, c, i);
      }
    }
  }

  /** A credit at iteration `k - 1` removes one `g[k - 1]` from the pool and nothing else.
      The assertions name the updated pool and its multiset to keep the proof cheap. */
  lemma PoolStepCredit(g: string, s: string, k: nat, c: char)
    requires |g| == |s| && 0 < k <= |g|
    requires var i := k - 1; g[i] != s[i] && Some(g[i]) in AfterCredits(g, s, i).pool
    ensures var i := k - 1; var b := AfterCredits(g, s, i);
      multiset(AfterCredits(g, s, k).pool)[Some(c)] == multiset(b.pool)[Some(c)] - (if c == g[i] then 1 else 0)
  {
    var i := k - 1;
    var b := AfterCredits(g, s, i);
    var f := FirstIndex(b.pool, Some(g[i]));
    assert AfterCredits(g, s, k).pool == b.pool[f := None];
    var mp := multiset(b.pool) - multiset{Some(g[i])} + multiset{None};
    assert multiset(b.pool[f := None]) == mp;
  }

  /** The pool holds the letter exactly when fewer of its guess occurrences were
      examined than the secret has to offer. */
  lemma InPoolIffAvailable(g: string, s: string, k: nat, c: char)
    requires |g| == |s| && k <= |g|
    ensures Some(c) in AfterCredits(g, s, k).pool <==> Used(g, s, c, k) < Available(g, s, c)
  {
    PoolCount(g, s, k, c);
    var p := AfterCredits(g, s, k).pool;
    assert Some(c) in p <==> multiset(p)[Some(c)] > 0;
  }

  /** A position before `k` already carries its final mark, the closed form's. */
  lemma {:induction false} MarkDone(g: string, s: string, k: nat, j: nat)
    requires |g| == |s| && j < k <= |g|
    ensures AfterCredits(g, s, k).marks[j] == Expected(g, s)[j]
  {
    var i := k - 1;
    if j < i {
      MarkDone(g, s, i, j);
    } else {
      MarkPending(g, s, i, i);
      InPoolIffAvailable(g, s, i, g[i]);
    }
  }

  /** Each letter has been marked Present as often as it was both available and used. */
  lemma {:induction false} PresentCount(g: string, s: string, k: nat, c: char)
    requires |g| == |s| && k <= |g|
    ensures multiset(AfterCredits(g, s, k).marks)[Present(c)] == Min(Available(g, s, c), Used(g, s, c, k))
  {
    if k == 0 {
      NoPresentAtFirst(g, s, c);
    } else {
      PresentCount(g, s, k - 1, c);
      PresentStep(g, s, k, c);
    }
  }

  // The assertions on the first-pass marks keep this base case cheap for the solver.
  lemma NoPresentAtFirst(g: string, s: string, c: char)
    requires |g| == |s|
    ensures multiset(AfterCredits(g, s, 0).marks)[Present(c)] == 0 == Used(g, s, c, 0)
  {
    NothingUsedAtFirst(g, s, c);
    var e := ExactMarks(g, s);
    assert forall j :: 0 <= j < |e| ==> e[j] != Present(c);
    assert Present(c) !in e;
  }

  /** Iteration `k - 1` adds a Present mark for `c` exactly when it uses up an available `c`. */
  lemma PresentStep(g: string, s: string, k: nat, c: char)
    requires |g| == |s| && 0 < k <= |g|
    ensures multiset(AfterCredits(g, s, k).marks)[Present(c)] + Min(Available(g, s, c), Used(g, s, c, k - 1))
         == multiset(AfterCredits(g, s, k - 1).marks)[Present(c)] + Min(Available(g, s, c), Used(g, s, c, k))
  {
    var i := k - 1;
    UsedStep(g, s, i, c);
    InPoolIffAvailable(g, s, i, g[i]);
    if g[i] != s[i] && Some(g[i]) in AfterCredits(g, s, i).pool {
      PresentStepCredit(g, s, k, c);
    } else {
      assert AfterCredits(g, s, k).marks == AfterCredits(g, s, i).marks;
    }
  }

  lemma PresentStepCredit(g: string, s: string, k: nat, c: char)
    requires |g| == |s| && 0 < k <= |g|
    requires var i := k - 1; g[i] != s[i] && Some(g[i]) in AfterCredits(g, s, i).pool
    ensures var i := k - 1;
      multiset(AfterCredits(g, s, k).marks)[Present(c)]
        == multiset(AfterCredits(g, s, i).marks)[Present(c)] + (if c == g[i] then 1 else 0)
  {
    var i := k - 1;
    var b := AfterCredits(g, s, i);
    MarksStepCredit(g, s, k);
    var mm := multiset(b.marks) - multiset{Absent} + multiset{Present(g[i])};
    assert mm[Present(c)] == multiset(b.marks)[Present(c)] + (if c == g[i] then 1 else 0);
  }

  /** A credit at iteration `k - 1` turns one Absent mark into a Present one. */
  lemma MarksStepCredit(g: string, s: string, k: nat)
    requires |g| == |s| && 0 < k <= |g|
    requires var i := k - 1; g[i] != s[i] && Some(g[i]) in AfterCredits(g, s, i).pool
    ensures var i := k - 1; var b := AfterCredits(g, s, i);
      multiset(AfterCredits(g, s, k).marks) == multiset(b.marks) - multiset{Absent} + multiset{Present(g[i])}
  {
    var i := k - 1;
    var b := AfterCredits(g, s, i);
    MarkPending(g, s, i, i);
    assert AfterCredits(g, s, k).marks == b.marks[i := Present(g[i])];
  }

  /** The second pass never adds or removes a Correct mark. */
  lemma {:induction false} CorrectCount(g: string, s: string, k: nat, c: char)
    requires |g| == |s| && k <= |g|
    ensures multiset(AfterCredits(g, s, k).marks)[Correct(c)] == multiset(ExactMarks(g, s))[Correct(c)]
  {
    if k > 0 {
      var i := k - 1;
      var b := AfterCredits(g, s, i);
      CorrectCount(g, s, i, c);
      if g[i] != s[i] && Some(g[i]) in b.pool {
        MarksStepCredit(g, s, k);
        var mm := multiset(b.marks) - multiset{Absent} + multiset{Present(g[i])};
        assert mm[Correct(c)] == multiset(b.marks)[Correct(c)];
      } else {
        assert AfterCredits(g, s, k).marks == b.marks;
      }
    }
  }

  /** The pool only loses entries: a slot still filled holds what the first pass left there. */
  lemma {:induction false} PoolOnlyLoses(g: string, s: string, k: nat, j: nat)
    requires |g| == |s| && k <= |g| && j < |g|
    ensures AfterCredits(g, s, k).pool[j] in {None, Unmatched(s, g)[j]}
  {
    if k > 0 {
      PoolOnlyLoses(g, s, k - 1, j);
    }
  }

  /** The two-pass algorithm computes the closed form. */
  lemma ScoreIsExpected(g: string, s: string)
    requires |g| == |s|
    ensures Score(g, s) == Expected(g, s)
  {
    forall j | 0 <= j < |g| ensures Score(g, s)[j] == Expected(g, s)[j] {
      MarkDone(g, s, |g|, j);
    }
  }

  /** One mark per guess position; an exact position is Correct and no other is; every
      other position is Present or Absent, and every letter shown is the guessed one. */
  lemma ScoreShape(g: string, s: string)
    requires |g| == |s|
    ensures |Score(g, s)| == |g|
    ensures forall i :: 0 <= i < |g| ==> (Score(g, s)[i] == Correct(g[i]) <==> g[i] == s[i])
    ensures forall i :: 0 <= i < |g| && g[i] != s[i] ==> Score(g, s)[i] in {Present(g[i]), Absent}
  {
    ScoreIsExpected(g, s);
  }

  lemma ExactMarksSnoc(a: string, b: string)
    requires |a| == |b| && a != []
    ensures var n := |a| - 1;
      multiset(ExactMarks(a, b)) == multiset(ExactMarks(a[..n], b[..n])) + multiset{ExactMarks(a, b)[n]}
  {
    var n := |a| - 1;
    assert ExactMarks(a, b) == ExactMarks(a[..n], b[..n]) + [ExactMarks(a, b)[n]];
  }

  lemma UnmatchedSnoc(a: string, b: string)
    requires |a| == |b| && a != []
    ensures var n := |a| - 1;
      multiset(Unmatched(a, b)) == multiset(Unmatched(a[..n], b[..n])) + multiset{Unmatched(a, b)[n]}
  {
    var n := |a| - 1;
    assert Unmatched(a, b) == Unmatched(a[..n], b[..n]) + [Unmatched(a, b)[n]];
  }

  /** The exact-position marks and the pool split the letters of `a`. */
  lemma {:induction false} SplitCount(a: string, b: string, c: char)
    requires |a| == |b|
    ensures multiset(a)[c] == multiset(ExactMarks(a, b))[Correct(c)] + multiset(Unmatched(a, b))[Some(c)]
  {
    if a != [] {
      var n := |a| - 1;
      SplitCount(a[..n], b[..n], c);
      assert a == a[..n] + [a[n]];
      assert multiset(a) == multiset(a[..n]) + multiset{a[n]};
      ExactMarksSnoc(a, b);
      UnmatchedSnoc(a, b);
    }
  }

  /** Conservation under repeated letters: the letter `c` is credited (Correct or Present)
      exactly as many times as it occurs in the guess or in the secret, whichever is fewer;
      in particular never more often than it occurs in the secret. */
  lemma Conservation(g: string, s: string, c: char)
    requires |g| == |s|
    ensures multiset(Score(g, s))[Correct(c)] + multiset(Score(g, s))[Present(c)]
            == Min(multiset(g)[c], multiset(s)[c])
    ensures multiset(Score(g, s))[Correct(c)] + multiset(Score(g, s))[Present(c)] <= multiset(s)[c]
  {
    PresentCount(g, s, |g|, c);
    CorrectCount(g, s, |g|, c);
    SplitCount(g, s, c);
    SplitCount(s, g, c);
    assert ExactMarks(g, s) == ExactMarks(s, g);
    assert Unmatched(g, s)[..|g|] == Unmatched(g, s);
  }

  /** A misplaced position is left Absent exactly when its letter was no longer
      in the pool at the moment the second pass examined it. */
  lemma AbsentIffExhausted(g: string, s: string, i: nat)
    requires |g| == |s| && i < |g|
    ensures Score(g, s)[i] == Absent <==> g[i] != s[i] && Some(g[i]) !in AfterCredits(g, s, i).pool
  {
    MarkDone(g, s, |g|, i);
    InPoolIffAvailable(g, s, i, g[i]);
  }

  /** Iteration `k` of the second pass either changes nothing, or marks position `k`
      Present and empties exactly one slot of the pool: the first one holding the letter. */
  lemma ConsumesFirst(g: string, s: string, k: nat)
    requires |g| == |s| && k < |g|
    ensures var b, r := AfterCredits(g, s, k), AfterCredits(g, s, k + 1);
      if r.marks[k] == Present(g[k]) then
        && Some(g[k]) in b.pool
        && r.marks == b.marks[k := Present(g[k])]
        && (exists f :: 0 <= f < |b.pool| && b.pool[f] == Some(g[k])
              && (forall j :: 0 <= j < f ==> b.pool[j] != Some(g[k]))
              && r.pool == b.pool[f := None])
      else
        r == b
  {
    MarkPending(g, s, k, k);
    var b := AfterCredits(g, s, k);
    if g[k] != s[k] && Some(g[k]) in b.pool {
      var f := FirstIndex(b.pool, Some(g[k]));
      assert AfterCredits(g, s, k + 1).pool == b.pool[f := None];
    }
  }

  /** A guess scores all Correct exactly when it equals the secret. */
  lemma AllCorrectIffEqual(g: string, s: string)
    requires |g| == |s|
    ensures (forall i :: 0 <= i < |g| ==> Score(g, s)[i] == Correct(g[i])) <==> g == s
  {
    ScoreShape(g, s);
  }

  /** Scores guess `mot` against the normalised secret `secret`: a pool copy of the
      secret is made, then the two passes run over it in place. */
  method ScoreGuess(mot: string, secret: string) returns (resultat: seq<Mark>)
    requires |mot| == |secret|
    ensures resultat == Score(mot, secret)
    ensures |resultat| == |mot|
    ensures forall i :: 0 <= i < |mot| ==> (resultat[i] == Correct(mot[i]) <==> mot[i] == secret[i])
  {
    var n := |mot|;
    var pool := new Option<char>[n](j requires 0 <= j < n => Some(secret[j]));
    resultat := MarkExact(mot, secret, pool);
    resultat := MarkMisplaced(mot, secret, pool, resultat);
    ScoreShape(mot, secret);
  }

  /** The first pass: one mark per position, exact positions Correct and their
      pool slots emptied, every other position Absent for now. */
  method MarkExact(mot: string, secret: string, pool: array<Option<char>>) returns (resultat: seq<Mark>)
    requires |mot| == |secret| == pool.Length
    requires forall j :: 0 <= j < pool.Length ==> pool[j] == Some(secret[j])
    modifies pool
    ensures resultat == ExactMarks(mot, secret)
    ensures pool[..] == Unmatched(secret, mot)
  {
    var n := |mot|;
    resultat := [];
    var i := 0;
    while i < n
      invariant 0 <= i <= n
      invariant |resultat| == i
      invariant forall j :: 0 <= j < i ==> resultat[j] == if mot[j] == secret[j] then Correct(mot[j]) else Absent
      invariant forall j :: 0 <= j < n ==> pool[j] == if j < i && mot[j] == secret[j] then None else Some(secret[j])
    {
      if mot[i] == secret[i] {
        resultat := resultat + [Correct(mot[i])];
        pool[i] := None;
      } else {
        resultat := resultat + [Absent];
      }
      i := i + 1;
    }
  }

  /** The second pass: each misplaced letter still in the pool is marked Present
      and its first remaining occurrence in the pool is emptied. */
  method MarkMisplaced(mot: string, secret: string, pool: array<Option<char>>, marks: seq<Mark>) returns (resultat: seq<Mark>)
    requires |mot| == |secret| == pool.Length
    requires Board(marks, pool[..]) == AfterCredits(mot, secret, 0)
    modifies pool
    ensures resultat == Score(mot, secret)
    ensures pool[..] == AfterCredits(mot, secret, |mot|).pool
  {
    var n := |mot|;
    resultat := marks;
    var i := 0;
    while i < n
      invariant 0 <= i <= n
      invariant Board(resultat, pool[..]) == AfterCredits(mot, secret, i)
    {
      ghost var before := Board(resultat, pool[..]);
      assert AfterCredits(mot, secret, i + 1) == Credit(mot, secret, before, i);
      if mot[i] != secret[i] && Some(mot[i]) in pool[..] {
        var f := FirstIndex(pool[..], Some(mot[i]));
        resultat := resultat[i := Present(mot[i])];
        pool[f] := None;
        assert pool[..] == before.pool[f := None];
      }
      i := i + 1;
    }
  }
}
