/**
 * The searches of `std::string` that the modelled code calls: `find`, `find_first_of`
 * and `find_last_of`. Each is given by what it finds, so that the loops built on them
 * can be proved. `None` stands for `std::string::npos`.
 */
module Search {
  import opened Wrappers

  /** `pat` occurs in `s` starting at index `i`. */
  predicate MatchAt<T(==)>(s: seq<T>, pat: seq<T>, i: int)
  {
    0 <= i && i + |pat| <= |s| && s[i..i + |pat|] == pat
  }

  /** `pat` occurs nowhere in `s`. */
  ghost predicate NoMatch<T>(s: seq<T>, pat: seq<T>)
  {
    forall j :: !MatchAt(s, pat, j)
  }

  /** `s.find(pat, from)`: the first occurrence of `pat` at or after `from`. */
  function Find<T(==)>(s: seq<T>, pat: seq<T>, from: nat): (r: Option<nat>)
    ensures r.Some? ==> from <= r.value && MatchAt(s, pat, r.value)
    ensures r.Some? ==> forall j :: from <= j < r.value ==> !MatchAt(s, pat, j)
    ensures r.None? ==> forall j :: from <= j ==> !MatchAt(s, pat, j)
    decreases |s| - from
  {
    if from + |pat| > |s| then None
    else if s[from..from + |pat|] == pat then Some(from)
    else Find(s, pat, from + 1)
  }

  /** `s.find_first_of(chars, from)`: the first index at or after `from` holding one of `chars`. */
  function FindFirstOf<T(==)>(s: seq<T>, chars: set<T>, from: nat): (r: Option<nat>)
    ensures r.Some? ==> from <= r.value < |s| && s[r.value] in chars
    ensures r.Some? ==> forall j :: from <= j < r.value ==> s[j] !in chars
    ensures r.None? ==> forall j :: from <= j < |s| ==> s[j] !in chars
    decreases |s| - from
  {
    if from >= |s| then None
    else if s[from] in chars then Some(from)
    else FindFirstOf(s, chars, from + 1)
  }

  /** `s.find_last_of(c)`: the last index holding `c`. */
  function FindLastOf<T(==)>(s: seq<T>, c: T): (r: Option<nat>)
    ensures r.Some? ==> r.value < |s| && s[r.value] == c
    ensures r.Some? ==> forall j :: r.value < j < |s| ==> s[j] != c
    ensures r.None? ==> c !in s
  {
    if |s| == 0 then None
    else if s[|s| - 1] == c then Some(|s| - 1)
    else FindLastOf(s[..|s| - 1], c)
  }

  /**
   * Reference definition of replacing every occurrence of a non-empty `pat`, scanning
   * left to right and resuming after each inserted `rep`.
   */
  function ReplaceAll<T(==)>(s: seq<T>, pat: seq<T>, rep: seq<T>): seq<T>
    requires |pat| > 0
    decreases |s|
  {
    if |s| < |pat| then s
    else if s[..|pat|] == pat then rep + ReplaceAll(s[|pat|..], pat, rep)
    else [s[0]] + ReplaceAll(s[1..], pat, rep)
  }

  /**
   * Reference definition of replacing the first `n` occurrences of `pat`, scanning left
   * to right and resuming after each inserted `rep`. An empty `pat` occurs at the
   * resume point every time, so then `rep` is inserted `n` times in front of `s`.
   */
  function ReplaceN<T(==)>(s: seq<T>, pat: seq<T>, rep: seq<T>, n: nat): seq<T>
    decreases n, |s|
  {
    if n == 0 || |s| < |pat| then s
    else if s[..|pat|] == pat then rep + ReplaceN(s[|pat|..], pat, rep, n - 1)
    else [s[0]] + ReplaceN(s[1..], pat, rep, n)
  }

  /** `rep` repeated `n` times. */
  function Repeat<T>(rep: seq<T>, n: nat): seq<T>
  {
    if n == 0 then [] else rep + Repeat(rep, n - 1)
  }

  /** A match in a suffix is a match in the whole sequence, shifted. */
  lemma MatchInSuffix<T>(s: seq<T>, pat: seq<T>, from: nat, j: nat)
    requires from <= |s|
    ensures MatchAt(s[from..], pat, j) <==> MatchAt(s, pat, from + j)
  {
    if j + |pat| <= |s| - from {
      assert s[from..][j..j + |pat|] == s[from + j..from + j + |pat|];
    }
  }

  /** Scanning past a prefix that holds no match start leaves that prefix unchanged. */
  lemma {:induction false} ReplaceAllSkip<T>(s: seq<T>, pat: seq<T>, rep: seq<T>, k: nat)
    requires |pat| > 0 && k <= |s|
    requires forall j :: 0 <= j < k ==> !MatchAt(s, pat, j)
    ensures ReplaceAll(s, pat, rep) == s[..k] + ReplaceAll(s[k..], pat, rep)
  {
    if k > 0 {
      assert !MatchAt(s, pat, 0);
      if |s| < |pat| {
        assert |s[k..]| < |pat|;
      } else {
        forall j | 0 <= j < k - 1 ensures !MatchAt(s[1..], pat, j) {
          MatchInSuffix(s, pat, 1, j);
        }
        ReplaceAllSkip(s[1..], pat, rep, k - 1);
        assert s[1..][k - 1..] == s[k..];
        assert [s[0]] + s[1..][..k - 1] == s[..k];
      }
    }
  }

  /** Without a match at or after `from`, the rest of `s` is left as it is. */
  lemma ReplaceAllNoMatch<T>(s: seq<T>, pat: seq<T>, rep: seq<T>, from: nat)
    requires |pat| > 0 && from <= |s|
    requires forall j :: from <= j ==> !MatchAt(s, pat, j)
    ensures ReplaceAll(s[from..], pat, rep) == s[from..]
  {
    var t := s[from..];
    forall j | 0 <= j < |t| ensures !MatchAt(t, pat, j) {
      MatchInSuffix(s, pat, from, j);
    }
    ReplaceAllSkip(t, pat, rep, |t|);
  }

  /** A match found by `Find` at `p` after a match-free stretch from `from`. */
  lemma ReplaceAllAtFound<T>(s: seq<T>, pat: seq<T>, rep: seq<T>, from: nat, p: nat)
    requires |pat| > 0 && from <= p && MatchAt(s, pat, p)
    requires forall j :: from <= j < p ==> !MatchAt(s, pat, j)
    ensures ReplaceAll(s[from..], pat, rep) == s[from..p] + rep + ReplaceAll(s[p + |pat|..], pat, rep)
  {
    var t := s[from..];
    forall j | 0 <= j < p - from ensures !MatchAt(t, pat, j) {
      MatchInSuffix(s, pat, from, j);
    }
    ReplaceAllSkip(t, pat, rep, p - from);
    var u := s[p..];
    assert t[p - from..] == u;
    assert t[..p - from] == s[from..p];
    assert u[..|pat|] == pat;
    assert u[|pat|..] == s[p + |pat|..];
  }

  /** The bounded replacement, like the unbounded one, leaves a match-free prefix alone. */
  lemma {:induction false} ReplaceNSkip<T>(s: seq<T>, pat: seq<T>, rep: seq<T>, n: nat, k: nat)
    requires k <= |s|
    requires forall j :: 0 <= j < k ==> !MatchAt(s, pat, j)
    ensures ReplaceN(s, pat, rep, n) == s[..k] + ReplaceN(s[k..], pat, rep, n)
  {
    if k > 0 && n > 0 {
      assert !MatchAt(s, pat, 0);
      if |s| < |pat| {
        assert |s[k..]| < |pat|;
      } else {
        forall j | 0 <= j < k - 1 ensures !MatchAt(s[1..], pat, j) {
          MatchInSuffix(s, pat, 1, j);
        }
        ReplaceNSkip(s[1..], pat, rep, n, k - 1);
        assert s[1..][k - 1..] == s[k..];
        assert [s[0]] + s[1..][..k - 1] == s[..k];
      }
    }
  }

  /** Bounded replacement from `from` when no match is left there. */
  lemma ReplaceNNoMatch<T>(s: seq<T>, pat: seq<T>, rep: seq<T>, n: nat, from: nat)
    requires from <= |s|
    requires forall j :: from <= j ==> !MatchAt(s, pat, j)
    ensures ReplaceN(s[from..], pat, rep, n) == s[from..]
  {
    var t := s[from..];
    forall j | 0 <= j < |t| ensures !MatchAt(t, pat, j) {
      MatchInSuffix(s, pat, from, j);
    }
    ReplaceNSkip(t, pat, rep, n, |t|);
    MatchInSuffix(s, pat, from, |t|);
    assert !MatchAt(t[|t|..], pat, 0);
  }

  /** Bounded replacement at a match `p` found after a match-free stretch from `from`. */
  lemma ReplaceNAtFound<T>(s: seq<T>, pat: seq<T>, rep: seq<T>, n: nat, from: nat, p: nat)
    requires n > 0 && from <= p && MatchAt(s, pat, p)
    requires forall j :: from <= j < p ==> !MatchAt(s, pat, j)
    ensures ReplaceN(s[from..], pat, rep, n)
         == s[from..p] + rep + ReplaceN(s[p + |pat|..], pat, rep, n - 1)
  {
    var t := s[from..];
    forall j | 0 <= j < p - from ensures !MatchAt(t, pat, j) {
      MatchInSuffix(s, pat, from, j);
    }
    ReplaceNSkip(t, pat, rep, n, p - from);
    var u := s[p..];
    assert t[p - from..] == u;
    assert t[..p - from] == s[from..p];
    assert u[..|pat|] == pat;
    assert u[|pat|..] == s[p + |pat|..];
  }

  /** With a limit no smaller than the length, the bounded replacement replaces every occurrence. */
  lemma {:induction false} ReplaceNIsReplaceAll<T>(s: seq<T>, pat: seq<T>, rep: seq<T>, n: nat)
    requires |pat| > 0 && n >= |s|
    ensures ReplaceN(s, pat, rep, n) == ReplaceAll(s, pat, rep)
    decreases |s|
  {
    if n > 0 && |s| >= |pat| {
      if s[..|pat|] == pat {
        ReplaceNIsReplaceAll(s[|pat|..], pat, rep, n - 1);
      } else {
        ReplaceNIsReplaceAll(s[1..], pat, rep, n);
      }
    }
  }

  /** An empty pattern matches at every resume point: `rep` is inserted `n` times up front. */
  lemma {:induction false} ReplaceNEmptyPattern<T>(s: seq<T>, rep: seq<T>, n: nat)
    ensures ReplaceN(s, [], rep, n) == Repeat(rep, n) + s
  {
    if n > 0 {
      ReplaceNEmptyPattern(s, rep, n - 1);
      assert s[..0] == [] && s[0..] == s;
    }
  }

  /** Reference count of the non-overlapping occurrences of `pat`, scanning from the left. */
  function CountOcc<T(==)>(s: seq<T>, pat: seq<T>): nat
    requires |pat| > 0
    decreases |s|
  {
    if |s| < |pat| then 0
    else if s[..|pat|] == pat then 1 + CountOcc(s[|pat|..], pat)
    else CountOcc(s[1..], pat)
  }

  lemma {:induction false} CountOccSkip<T>(s: seq<T>, pat: seq<T>, k: nat)
    requires |pat| > 0 && k <= |s|
    requires forall j :: 0 <= j < k ==> !MatchAt(s, pat, j)
    ensures CountOcc(s, pat) == CountOcc(s[k..], pat)
  {
    if k > 0 {
      assert !MatchAt(s, pat, 0);
      if |s| < |pat| {
        assert |s[k..]| < |pat|;
      } else {
        forall j | 0 <= j < k - 1 ensures !MatchAt(s[1..], pat, j) {
          MatchInSuffix(s, pat, 1, j);
        }
        CountOccSkip(s[1..], pat, k - 1);
        assert s[1..][k - 1..] == s[k..];
      }
    }
  }

  /** Without a match at or after `from`, nothing is counted from there. */
  lemma CountOccNoMatch<T>(s: seq<T>, pat: seq<T>, from: nat)
    requires |pat| > 0 && from <= |s|
    requires forall j :: from <= j ==> !MatchAt(s, pat, j)
    ensures CountOcc(s[from..], pat) == 0
  {
    var t := s[from..];
    forall j | 0 <= j < |t| ensures !MatchAt(t, pat, j) {
      MatchInSuffix(s, pat, from, j);
    }
    CountOccSkip(t, pat, |t|);
    assert |t[|t|..]| == 0;
  }

  /** The first match at or after `from` is counted, and counting resumes after it. */
  lemma CountOccAtFound<T>(s: seq<T>, pat: seq<T>, from: nat, p: nat)
    requires |pat| > 0 && from <= p && MatchAt(s, pat, p)
    requires forall j :: from <= j < p ==> !MatchAt(s, pat, j)
    ensures CountOcc(s[from..], pat) == 1 + CountOcc(s[p + |pat|..], pat)
  {
    var t := s[from..];
    forall j | 0 <= j < p - from ensures !MatchAt(t, pat, j) {
      MatchInSuffix(s, pat, from, j);
    }
    CountOccSkip(t, pat, p - from);
    var u := s[p..];
    assert t[p - from..] == u;
    assert u[..|pat|] == pat;
    assert u[|pat|..] == s[p + |pat|..];
  }

  /** A one-element pattern matches exactly where that element is. */
  lemma MatchSingle<T>(s: seq<T>, x: T, j: int)
    ensures MatchAt(s, [x], j) <==> 0 <= j < |s| && s[j] == x
  {
    if 0 <= j < |s| {
      assert s[j..j + 1] == [s[j]];
    }
  }

  /** `Find` of a one-element pattern, stated element by element. */
  lemma FindSingle<T>(s: seq<T>, x: T, from: nat)
    ensures Find(s, [x], from).Some? ==>
      var p := Find(s, [x], from).value;
      from <= p < |s| && s[p] == x && forall j :: from <= j < p ==> s[j] != x
    ensures Find(s, [x], from).None? ==> forall j :: from <= j < |s| ==> s[j] != x
  {
    forall j | 0 <= j < |s| ensures MatchAt(s, [x], j) <==> s[j] == x {
      MatchSingle(s, x, j);
    }
  }

  /** A text with `n` elements at `p` replaced by `r`, seen either side of `p`. */
  lemma Splice<T>(s: seq<T>, r: seq<T>, p: nat, n: nat)
    requires p + n <= |s|
    ensures (s[..p] + r + s[p + n..])[..p] == s[..p]
    ensures (s[..p] + r + s[p + n..])[p..] == r + s[p + n..]
  {
    var t := s[..p] + r + s[p + n..];
    assert t == s[..p] + (r + s[p + n..]);
  }

  lemma Regroup3<T>(a: seq<T>, b: seq<T>, c: seq<T>)
    ensures a + (b + c) == a + b + c
  {
  }

  /** Concatenation regrouped, for proofs that split a text around a match. */
  lemma Regroup<T>(a: seq<T>, b: seq<T>, c: seq<T>, d: seq<T>)
    ensures a + (b + c + d) == (a + b) + (c + d) == a + b + c + d
  {
  }
}
