/** Substring search as `strstr` does it, and strings that end at the first NUL. */
module Text {

  datatype Option<+T> = None | Some(value: T)

  predicate Occurs<T(==)>(s: seq<T>, pat: seq<T>, i: nat) {
    i + |pat| <= |s| && s[i..i + |pat|] == pat
  }

  /** `strstr`: tries the places of the text one after the other. */
  function Find<T(==)>(s: seq<T>, pat: seq<T>): (r: Option<nat>)
    ensures r.Some? ==> r.value <= |s|
  {
    FindFrom(s, pat, 0)
  }

  function FindFrom<T(==)>(s: seq<T>, pat: seq<T>, i: nat): (r: Option<nat>)
    ensures r.Some? ==> r.value <= |s|
    decreases |s| + 1 - i
  {
    if i > |s| then None else if Occurs(s, pat, i) then Some(i) else FindFrom(s, pat, i + 1)
  }

  ghost predicate FirstOccurrence<T>(s: seq<T>, pat: seq<T>, i: nat) {
    Occurs(s, pat, i) && forall j: nat :: j < i ==> !Occurs(s, pat, j)
  }

  lemma {:induction false} FindFromMeans<T>(s: seq<T>, pat: seq<T>, i: nat)
    requires forall j: nat :: j < i ==> !Occurs(s, pat, j)
    ensures FindFrom(s, pat, i).Some? ==> FirstOccurrence(s, pat, FindFrom(s, pat, i).value)
    ensures FindFrom(s, pat, i).None? ==> forall j: nat :: !Occurs(s, pat, j)
    decreases |s| + 1 - i
  {
    if i <= |s| && !Occurs(s, pat, i) {
      FindFromMeans(s, pat, i + 1);
    }
  }

  /** The search returns the first occurrence, and nothing only if there is none. */
  lemma FindMeans<T>(s: seq<T>, pat: seq<T>)
    ensures Find(s, pat).Some? ==> FirstOccurrence(s, pat, Find(s, pat).value)
    ensures Find(s, pat).None? ==> forall j: nat :: !Occurs(s, pat, j)
  {
    FindFromMeans(s, pat, 0);
  }

  lemma FindIs<T>(s: seq<T>, pat: seq<T>, i: nat)
    requires FirstOccurrence(s, pat, i)
    ensures Find(s, pat) == Some(i)
  {
    FindMeans(s, pat);
  }

  lemma CoveredPlace<T>(s: seq<T>, pat: seq<T>, i: nat, c: nat)
    requires Occurs(s, pat, i) && i <= c < i + |pat|
    ensures s[c] == pat[c - i]
  {
    assert s[c] == s[i..i + |pat|][c - i];
  }

  lemma PrefixOccurs<T>(s: seq<T>, t: seq<T>, pat: seq<T>, j: nat)
    requires s <= t
    ensures Occurs(s, pat, j) <==> Occurs(t, pat, j) && j + |pat| <= |s|
  {
    if j + |pat| <= |s| {
      assert s[j..j + |pat|] == t[j..j + |pat|];
    }
  }

  lemma SuffixOccurs<T>(s: seq<T>, p: nat, pat: seq<T>, j: nat)
    requires p <= |s|
    ensures Occurs(s[p..], pat, j) <==> Occurs(s, pat, p + j)
  {
    if p + j + |pat| <= |s| {
      assert s[p..][j..j + |pat|] == s[p + j..p + j + |pat|];
    }
  }

  /** What has been found stays where it is when more text arrives. */
  lemma FindInLonger<T>(s: seq<T>, t: seq<T>, pat: seq<T>)
    requires s <= t && Find(s, pat).Some?
    ensures Find(t, pat) == Find(s, pat)
  {
    FindMeans(s, pat);
    var i := Find(s, pat).value;
    forall j: nat | j <= i ensures Occurs(t, pat, j) <==> Occurs(s, pat, j) {
      PrefixOccurs(s, t, pat, j);
    }
    FindIs(t, pat, i);
  }

  /** The place of the first NUL from `i` on, or else the end. */
  function NulFrom<T(==)>(s: seq<T>, nul: T, i: nat): (n: nat)
    requires i <= |s|
    ensures i <= n <= |s|
    decreases |s| - i
  {
    if i == |s| || s[i] == nul then i else NulFrom(s, nul, i + 1)
  }

  /** The part of a buffer that C sees as a string. */
  function CString<T(==)>(s: seq<T>, nul: T): seq<T> {
    s[..NulFrom(s, nul, 0)]
  }

  lemma {:induction false} NulFromMeans<T>(s: seq<T>, nul: T, i: nat)
    requires i <= |s|
    ensures forall j :: i <= j < NulFrom(s, nul, i) ==> s[j] != nul
    ensures NulFrom(s, nul, i) < |s| ==> s[NulFrom(s, nul, i)] == nul
    decreases |s| - i
  {
    if i < |s| && s[i] != nul {
      NulFromMeans(s, nul, i + 1);
    }
  }

  /** It is the longest prefix without NUL. */
  lemma CStringMeans<T>(s: seq<T>, nul: T)
    ensures CString(s, nul) <= s && nul !in CString(s, nul)
    ensures |CString(s, nul)| < |s| ==> s[|CString(s, nul)|] == nul
  {
    NulFromMeans(s, nul, 0);
  }

  lemma CStringCovers<T>(s: seq<T>, nul: T, n: nat)
    requires n <= |s| && nul !in s[..n]
    ensures n <= |CString(s, nul)|
  {
    NulFromMeans(s, nul, 0);
    assert forall j :: 0 <= j < n ==> s[j] == s[..n][j];
  }

  lemma CStringIs<T>(s: seq<T>, nul: T, n: nat)
    requires n <= |s| && nul !in s[..n] && (n < |s| ==> s[n] == nul)
    ensures CString(s, nul) == s[..n]
  {
    CStringCovers(s, nul, n);
    NulFromMeans(s, nul, 0);
  }

  lemma CStringOfLonger<T>(s: seq<T>, t: seq<T>, nul: T)
    requires s <= t
    ensures CString(s, nul) <= CString(t, nul)
  {
    var n := |CString(s, nul)|;
    CStringMeans(s, nul);
    assert t[..n] == s[..n];
    CStringCovers(t, nul, n);
  }
}
