/** Searching and replacing within strings. */
module Texts {

  ghost predicate OccursAt<T>(s: seq<T>, pattern: seq<T>, i: int) {
    0 <= i <= i + |pattern| <= |s| && s[i..i + |pattern|] == pattern
  }

  /** The first place at or after `from` where the pattern occurs, or -1. */
  function IndexOf<T(==)>(s: seq<T>, pattern: seq<T>, from: nat): (i: int)
    ensures i == -1 <==> forall j :: from <= j ==> !OccursAt(s, pattern, j)
    ensures i != -1 ==> from <= i && OccursAt(s, pattern, i) && forall j :: from <= j < i ==> !OccursAt(s, pattern, j)
    decreases |s| - from
  {
    if from + |pattern| > |s| then -1
    else if s[from..from + |pattern|] == pattern then assert OccursAt(s, pattern, from); from
    else assert !OccursAt(s, pattern, from); IndexOf(s, pattern, from + 1)
  }

  /** s.split(pattern).join(other) */
  function ReplaceAll(s: string, pattern: string, other: string): string
    requires pattern != ""
    decreases |s|
  {
    if |s| < |pattern| then s
    else if s[..|pattern|] == pattern then other + ReplaceAll(s[|pattern|..], pattern, other)
    else [s[0]] + ReplaceAll(s[1..], pattern, other)
  }

  /** One differing character rules an occurrence out. */
  lemma NotAt<T>(s: seq<T>, pattern: seq<T>, i: int, j: nat)
    requires j < |pattern|
    requires 0 <= i + j < |s| ==> s[i + j] != pattern[j]
    ensures !OccursAt(s, pattern, i)
  {
    assert 0 <= i <= i + |pattern| <= |s| ==> s[i..i + |pattern|][j] == s[i + j];
  }

  lemma {:induction false} ReplaceNone(s: string, pattern: string, other: string)
    requires pattern != "" && forall i :: !OccursAt(s, pattern, i)
    ensures ReplaceAll(s, pattern, other) == s
  {
    if |s| >= |pattern| {
      assert !OccursAt(s, pattern, 0);
      forall i ensures !OccursAt(s[1..], pattern, i) {
        assert !OccursAt(s, pattern, i + 1);
        if 0 <= i <= i + |pattern| <= |s| - 1 {
          assert s[1..][i..i + |pattern|] == s[i + 1..i + 1 + |pattern|];
        }
      }
      ReplaceNone(s[1..], pattern, other);
    }
  }

  lemma LaterOccurrence(s: string, pattern: string, i: int)
    requires s != "" && i >= 0 && !OccursAt(s, pattern, i + 1)
    ensures !OccursAt(s[1..], pattern, i)
  {
    assert i + |pattern| <= |s| - 1 ==> s[1..][i..i + |pattern|] == s[i + 1..i + 1 + |pattern|];
  }

  /** The first occurrence is replaced, and when there is no other, nothing else. */
  lemma {:induction false} ReplaceOnce(u: string, pattern: string, v: string, other: string)
    requires pattern != "" && forall i :: 0 <= i < |u| ==> !OccursAt(u + pattern + v, pattern, i)
    requires forall i :: !OccursAt(v, pattern, i)
    ensures ReplaceAll(u + pattern + v, pattern, other) == u + other + v
  {
    var s := u + pattern + v;
    if u == "" {
      assert s[..|pattern|] == pattern && s[|pattern|..] == v;
      ReplaceNone(v, pattern, other);
      assert u + other + v == other + v;
    } else {
      assert s[1..] == u[1..] + pattern + v;
      forall i | 0 <= i < |u| - 1 ensures !OccursAt(u[1..] + pattern + v, pattern, i) {
        LaterOccurrence(s, pattern, i);
      }
      ReplaceOnce(u[1..], pattern, v, other);
      assert !OccursAt(s, pattern, 0);
      assert u + other + v == [u[0]] + (u[1..] + other + v);
    }
  }

  lemma FirstIndex(s: string, pattern: string, k: nat)
    requires OccursAt(s, pattern, k) && forall i :: 0 <= i < k ==> !OccursAt(s, pattern, i)
    ensures IndexOf(s, pattern, 0) == k
  {
  }

  // ----- patterns that repeat one letter

  /** The letter stands alone wherever it stands. */
  ghost predicate Isolated(s: string, c: char) {
    forall i :: 0 <= i < |s| - 1 ==> s[i] != c || s[i + 1] != c
  }

  /** Between the two texts there is room for a run of the letter. */
  ghost predicate Apart(u: string, v: string, c: char) {
    Isolated(u, c) && Isolated(v, c) && (u != "" ==> u[|u| - 1] != c) && (v != "" ==> v[0] != c)
  }

  ghost predicate IsRun(s: string, c: char) {
    |s| >= 2 && forall i :: 0 <= i < |s| ==> s[i] == c
  }

  lemma RunAbsent(s: string, pattern: string, c: char)
    requires Isolated(s, c) && IsRun(pattern, c)
    ensures forall i :: !OccursAt(s, pattern, i)
  {
    forall i ensures !OccursAt(s, pattern, i) {
      if 0 <= i < |s| && s[i] == c {
        NotAt(s, pattern, i, 1);
      } else {
        NotAt(s, pattern, i, 0);
      }
    }
  }

  lemma RunFirst(u: string, w: string, v: string, pattern: string, c: char)
    requires Apart(u, v, c) && IsRun(pattern, c) && IsRun(w, c)
    ensures forall i :: 0 <= i < |u| ==> !OccursAt(u + w + v, pattern, i)
  {
    var s := u + w + v;
    forall i | 0 <= i < |u| ensures !OccursAt(s, pattern, i) {
      if s[i] == c && i + 1 < |u| {
        assert s[i] == u[i] && s[i + 1] == u[i + 1];
        NotAt(s, pattern, i, 1);
      } else {
        NotAt(s, pattern, i, 0);
      }
    }
  }

  lemma RunReplaced(u: string, pattern: string, v: string, c: char, other: string)
    requires Apart(u, v, c) && IsRun(pattern, c)
    ensures ReplaceAll(u + pattern + v, pattern, other) == u + other + v
  {
    hide ReplaceAll;
    RunFirst(u, pattern, v, pattern, c);
    RunAbsent(v, pattern, c);
    ReplaceOnce(u, pattern, v, other);
  }

  lemma RunFound(u: string, pattern: string, v: string, c: char)
    requires Apart(u, v, c) && IsRun(pattern, c)
    ensures IndexOf(u + pattern + v, pattern, 0) == |u|
  {
    hide IndexOf;
    RunFirst(u, pattern, v, pattern, c);
    assert (u + pattern + v)[|u|..|u| + |pattern|] == pattern;
    FirstIndex(u + pattern + v, pattern, |u|);
  }

  /** A shorter run does not contain a longer one. */
  lemma ShorterRun(u: string, w: string, v: string, pattern: string, c: char)
    requires Apart(u, v, c) && IsRun(w, c) && IsRun(pattern, c) && |w| < |pattern|
    ensures forall i :: !OccursAt(u + w + v, pattern, i)
  {
    var s := u + w + v;
    RunFirst(u, w, v, pattern, c);
    forall i ensures !OccursAt(s, pattern, i) {
      if |u| <= i < |u| + |w| {
        assert v != "" ==> s[|u| + |w|] == v[0];
        NotAt(s, pattern, i, |u| + |w| - i);
      } else if |u| + |w| <= i < |s| {
        var k := i - |u| - |w|;
        assert s[i] == v[k] && (i + 1 < |s| ==> s[i + 1] == v[k + 1]);
        NotAt(s, pattern, i, if v[k] == c then 1 else 0);
      } else if i >= |s| || i < 0 {
        NotAt(s, pattern, i, 0);
      }
    }
  }

  /** Putting another text into a place that did not hold the letter leaves the letter alone. */
  lemma IsolatedKept(u: string, w: string, v: string, w': string, c: char)
    requires Isolated(u + w + v, c) && w != "" && w' != "" && Isolated(w', c) && w'[0] != c
    requires w'[|w'| - 1] != c || (v != "" ==> v[0] != c)
    ensures Isolated(u + w' + v, c)
  {
    var s, t := u + w + v, u + w' + v;
    forall i | 0 <= i < |t| - 1 ensures t[i] != c || t[i + 1] != c {
      if i + 1 < |u| {
        assert t[i] == s[i] && t[i + 1] == s[i + 1];
      } else if i < |u| {
        assert t[i + 1] == w'[0];
      } else if i + 1 < |u| + |w'| {
        assert t[i] == w'[i - |u|] && t[i + 1] == w'[i + 1 - |u|];
      } else if i < |u| + |w'| {
        assert t[i] == w'[|w'| - 1] && t[i + 1] == v[0];
      } else {
        assert t[i] == s[i - |w'| + |w|] && t[i + 1] == s[i + 1 - |w'| + |w|];
      }
    }
  }

  lemma IsolatedBetween(u: string, w: string, v: string, c: char)
    requires Apart(u, v, c) && Isolated(w, c)
    ensures Isolated(u + w + v, c)
  {
    var t := u + w + v;
    forall i | 0 <= i < |t| - 1 ensures t[i] != c || t[i + 1] != c {
      if i + 1 < |u| {
        assert t[i] == u[i] && t[i + 1] == u[i + 1];
      } else if i >= |u| && i + 1 < |u| + |w| {
        assert t[i] == w[i - |u|] && t[i + 1] == w[i + 1 - |u|];
      } else if i >= |u| + |w| {
        assert t[i] == v[i - |u| - |w|] && t[i + 1] == v[i + 1 - |u| - |w|];
      }
    }
  }
}
