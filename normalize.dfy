/**
 * Text normalisation of the game: accent stripping (`enlever_accents`),
 * the whitespace strip, and the alphabetic filter applied to a drawn secret.
 *
 * The Unicode tables the game relies on (canonical decomposition, general
 * category, `isalpha`, `isspace`, `lower`, `upper`) are library calls outside
 * this model; they enter as the fields of a `Tables` value, and only the
 * filtering logic built around them is modelled and verified.
 */
module Normalize {

  /** The Unicode services the game calls. */
  datatype Tables = Tables(
    nfd: string -> string,      // canonical decomposition of a whole string (NFD)
    isMn: char -> bool,         // general category is Mn (non-spacing mark)
    isAlpha: char -> bool,      // the character is alphabetic
    isSpace: char -> bool,      // the character is whitespace
    lower: string -> string,    // lower-casing of a whole string
    upper: char -> string)      // upper-casing of one character

  /** The characters of `s` that satisfy `keep`, in their original order. */
  function Filter(keep: char -> bool, s: string): (r: string)
    ensures |r| <= |s|
    ensures forall i :: 0 <= i < |r| ==> keep(r[i])
  {
    if s == [] then [] else (if keep(s[0]) then [s[0]] else []) + Filter(keep, s[1..])
  }

  /** Filtering keeps every occurrence of a kept character and nothing else. */
  lemma {:induction false} FilterCount(keep: char -> bool, s: string, c: char)
    ensures multiset(Filter(keep, s))[c] == if keep(c) then multiset(s)[c] else 0
  {
    if s != [] {
      FilterCount(keep, s[1..], c);
      assert s == [s[0]] + s[1..];
      assert multiset(s) == multiset([s[0]]) + multiset(s[1..]);
    }
  }

  /** Filtering distributes over concatenation, so it preserves order. */
  lemma {:induction false} FilterConcat(keep: char -> bool, a: string, b: string)
    ensures Filter(keep, a + b) == Filter(keep, a) + Filter(keep, b)
  {
    if a == [] {
      assert a + b == b;
    } else {
      assert (a + b)[0] == a[0];
      assert (a + b)[1..] == a[1..] + b;
      FilterConcat(keep, a[1..], b);
    }
  }

  /** A string is left unchanged by the filter exactly when every character is kept. */
  lemma {:induction false} FilterUnchanged(keep: char -> bool, s: string)
    ensures Filter(keep, s) == s <==> forall i :: 0 <= i < |s| ==> keep(s[i])
  {
    if s != [] {
      FilterUnchanged(keep, s[1..]);
      if !keep(s[0]) {
        assert |Filter(keep, s)| <= |s[1..]| < |s|;
      } else {
        assert Filter(keep, s) == [s[0]] + Filter(keep, s[1..]);
        if Filter(keep, s) == s {
          assert Filter(keep, s[1..]) == s[1..];
        }
        if forall i :: 0 <= i < |s| ==> keep(s[i]) {
          assert forall i :: 0 <= i < |s[1..]| ==> keep(s[1..][i]) by {
            forall i | 0 <= i < |s[1..]| ensures keep(s[1..][i]) { assert s[1..][i] == s[i + 1]; }
          }
        }
      }
    }
  }

  /** Filtering twice with the same test is filtering once. */
  lemma FilterIdempotent(keep: char -> bool, s: string)
    ensures Filter(keep, Filter(keep, s)) == Filter(keep, s)
  {
    FilterUnchanged(keep, Filter(keep, s));
  }

  /** `enlever_accents`: decompose, then drop every non-spacing mark. */
  function StripAccents(u: Tables, s: string): (r: string)
    ensures |r| <= |u.nfd(s)|
    ensures forall i :: 0 <= i < |r| ==> !u.isMn(r[i])
  {
    Filter((c: char) => !u.isMn(c), u.nfd(s))
  }

  /** Accent stripping keeps every non-mark character of the decomposition, with its multiplicity. */
  lemma StripAccentsCount(u: Tables, s: string, c: char)
    ensures multiset(StripAccents(u, s))[c] == if u.isMn(c) then 0 else multiset(u.nfd(s))[c]
  {
    FilterCount((c: char) => !u.isMn(c), u.nfd(s), c);
  }

  /** The alphabetic filter, `''.join(filter(str.isalpha, _))`. */
  function KeepAlpha(u: Tables, s: string): (r: string)
    ensures |r| <= |s|
    ensures forall i :: 0 <= i < |r| ==> u.isAlpha(r[i])
  {
    Filter(u.isAlpha, s)
  }

  /** The first position at or after `b` that is not whitespace (or `|s|`). */
  function FirstKept(isSpace: char -> bool, s: string, b: nat): (k: nat)
    requires b <= |s|
    ensures b <= k <= |s|
    ensures forall j :: b <= j < k ==> isSpace(s[j])
    ensures k < |s| ==> !isSpace(s[k])
    decreases |s| - b
  {
    if b < |s| && isSpace(s[b]) then FirstKept(isSpace, s, b + 1) else b
  }

  /** The end of `s[a..e]` once its trailing whitespace is dropped. */
  function LastKept(isSpace: char -> bool, s: string, a: nat, e: nat): (k: nat)
    requires a <= e <= |s|
    ensures a <= k <= e
    ensures forall j :: k <= j < e ==> isSpace(s[j])
    ensures a < k ==> !isSpace(s[k - 1])
    decreases e
  {
    if a < e && isSpace(s[e - 1]) then LastKept(isSpace, s, a, e - 1) else e
  }

  /** `str.strip()`: the part of `s` between its leading and its trailing whitespace.
      The result neither starts nor ends with whitespace, and everything removed is whitespace. */
  function Strip(isSpace: char -> bool, s: string): (r: string)
    ensures r != [] ==> !isSpace(r[0]) && !isSpace(r[|r| - 1])
    ensures var a := FirstKept(isSpace, s, 0);
            a + |r| <= |s| && r == s[a..a + |r|] &&
            (forall j :: 0 <= j < a ==> isSpace(s[j])) &&
            (forall j :: a + |r| <= j < |s| ==> isSpace(s[j]))
  {
    var a := FirstKept(isSpace, s, 0);
    var e := LastKept(isSpace, s, a, |s|);
    s[a..e]
  }

  /** The stored secret of a round: strip, lower-case, keep the alphabetic characters. */
  function SecretForm(u: Tables, line: string): (r: string)
    ensures forall i :: 0 <= i < |r| ==> u.isAlpha(r[i])
  {
    KeepAlpha(u, u.lower(Strip(u.isSpace, line)))
  }

  /** The compared form of a guess: strip, lower-case, strip accents.
      Unlike the secret, a guess is not filtered to alphabetic characters. */
  function GuessForm(u: Tables, text: string): (r: string)
    ensures forall i :: 0 <= i < |r| ==> !u.isMn(r[i])
  {
    StripAccents(u, u.lower(Strip(u.isSpace, text)))
  }
}
