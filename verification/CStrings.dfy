/** NUL-terminated strings in character arrays. */
module CStrings {
  import opened Bytes

  const NUL: char := '\0'

  /** The first index from `i` on that holds `c`, `|s|` if none does. */
  function First(s: seq<char>, i: nat, c: char): (r: nat)
    requires i <= |s|
    ensures i <= r <= |s|
    ensures forall k | i <= k < r :: s[k] != c
    ensures r < |s| ==> s[r] == c
    decreases |s| - i
  {
    if i == |s| || s[i] == c then i else First(s, i + 1, c)
  }

  /** That index is the only one with those properties. */
  lemma {:induction false} FirstIs(s: seq<char>, i: nat, c: char, r: nat)
    requires i <= r <= |s|
    requires forall k | i <= k < r :: s[k] != c
    requires r < |s| ==> s[r] == c
    ensures First(s, i, c) == r
    decreases r - i
  {
    if i < r {
      FirstIs(s, i + 1, c, r);
    }
  }

  /** A string is terminated at or behind `i`. */
  predicate Terminated(s: seq<char>, i: nat)
  {
    i <= |s| && First(s, i, NUL) < |s|
  }

  /** The C string that starts at `i`. */
  function CStr(s: seq<char>, i: nat): string
    requires Terminated(s, i)
    ensures NUL !in CStr(s, i)
  {
    s[i..First(s, i, NUL)]
  }

  lemma {:induction false} CStrIs(s: seq<char>, i: nat, t: string)
    requires NUL !in t && i + |t| < |s|
    requires s[i..i + |t|] == t && s[i + |t|] == NUL
    ensures Terminated(s, i) && CStr(s, i) == t
  {
    forall k | i <= k < i + |t|
      ensures s[k] != NUL
    {
      assert s[k] == s[i..i + |t|][k - i];
    }
    FirstIs(s, i, NUL, i + |t|);
  }

  /** The part of a text before the first `c`, all of it if there is none. */
  function Before(t: string, c: char): string
  {
    t[..First(t, 0, c)]
  }

  /** A word without `c` is what comes before it, alone or with `c` and anything behind it. */
  lemma {:induction false} BeforeIs(word: string, c: char, rest: string)
    requires c !in word
    ensures Before(word, c) == word && Before(word + [c] + rest, c) == word
  {
    var t := word + [c] + rest;
    FirstIs(word, 0, c, |word|);
    assert forall k | 0 <= k < |word| :: t[k] == word[k];
    FirstIs(t, 0, c, |word|);
    assert t[..|word|] == word;
  }

  /** strlen. */
  method StrLen(a: array<char>, i: nat) returns (n: nat)
    requires Terminated(a[..], i)
    ensures n == |CStr(a[..], i)| && i + n == First(a[..], i, NUL)
  {
    n := 0;
    while a[i + n] != NUL
      invariant i + n <= First(a[..], i, NUL)
      invariant forall k | i <= k < i + n :: a[k] != NUL
      decreases a.Length - i - n
    {
      n := n + 1;
    }
    FirstIs(a[..], i, NUL, i + n);
  }

  /** strchr: where `c` first occurs in the string at `i`, None if the string ends before. */
  method StrChr(a: array<char>, i: nat, c: char) returns (r: Option<nat>)
    requires Terminated(a[..], i) && c != NUL
    ensures var t := CStr(a[..], i);
            r == if First(t, 0, c) == |t| then None else Some(i + First(t, 0, c))
  {
    ghost var t := CStr(a[..], i);
    var j := i;
    while a[j] != NUL
      invariant i <= j <= First(a[..], i, NUL)
      invariant forall k | 0 <= k < j - i :: t[k] != c
      decreases a.Length - j
    {
      assert t[j - i] == a[j];
      if a[j] == c {
        FirstIs(t, 0, c, j - i);
        return Some(j);
      }
      j := j + 1;
    }
    FirstIs(t, 0, c, |t|);
    return None;
  }
}
