/** Facts about sequences that several models share. */
module Sequences {

  lemma Assoc<T>(a: seq<T>, b: seq<T>, c: seq<T>)
    ensures a + (b + c) == (a + b) + c
  {
  }

  lemma DropDrop<T>(s: seq<T>, i: nat, j: nat)
    requires i + j <= |s|
    ensures s[i..][j..] == s[i + j..]
  {
  }

  lemma DropTake<T>(s: seq<T>, i: nat, n: nat)
    requires i + n <= |s|
    ensures s[i..][..n] == s[i..i + n]
  {
  }

  lemma TakeDrop<T>(s: seq<T>, n: nat, i: nat)
    requires i <= n <= |s|
    ensures s[..n][i..] == s[i..n]
  {
  }

  lemma DropBehind<T>(a: seq<T>, b: seq<T>, k: nat)
    requires |a| <= k <= |a| + |b|
    ensures (a + b)[k..] == b[k - |a|..]
  {
  }

  lemma TakeBehind<T>(a: seq<T>, b: seq<T>, k: nat)
    requires |a| <= k <= |a| + |b|
    ensures (a + b)[..k] == a + b[..k - |a|]
  {
  }

  lemma HeadAndTail<T>(s: seq<T>)
    requires s != []
    ensures s == [s[0]] + s[1..]
  {
  }

  lemma PrefixOfPrefix<T>(a: seq<T>, b: seq<T>, c: seq<T>)
    requires a <= b <= c
    ensures a <= c
  {
    assert forall i :: 0 <= i < |a| ==> a[i] == b[i] == c[i];
  }

  /** `s` is left when some elements of `t` are struck out. */
  ghost predicate Subsequence<T(!new)>(s: seq<T>, t: seq<T>) {
    s == [] || (t != [] && (Subsequence(s, t[1..]) || (s[0] == t[0] && Subsequence(s[1..], t[1..]))))
  }

  lemma {:induction false} SubsequenceTail<T(!new)>(s: seq<T>, t: seq<T>)
    requires s != [] && Subsequence(s, t)
    ensures t != [] && Subsequence(s[1..], t[1..])
  {
    if Subsequence(s, t[1..]) {
      SubsequenceTail(s, t[1..]);
      assert Subsequence(s[1..], t[1..]);
    }
  }

  lemma SubsequenceCons<T(!new)>(x: T, s: seq<T>, t: seq<T>)
    requires Subsequence(s, t)
    ensures Subsequence(s, [x] + t) && Subsequence([x] + s, [x] + t)
  {
    assert ([x] + t)[1..] == t && ([x] + s)[1..] == s;
  }

  lemma {:induction false} SubsequenceOfItself<T(!new)>(s: seq<T>)
    ensures Subsequence(s, s)
  {
    if s != [] { SubsequenceOfItself(s[1..]); }
  }

  lemma {:induction false} SubsequenceTransitive<T(!new)>(r: seq<T>, s: seq<T>, t: seq<T>)
    requires Subsequence(r, s) && Subsequence(s, t)
    ensures Subsequence(r, t)
    decreases |t|
  {
    if r != [] {
      if Subsequence(s, t[1..]) {
        SubsequenceTransitive(r, s, t[1..]);
      } else if Subsequence(r, s[1..]) {
        SubsequenceTransitive(r, s[1..], t[1..]);
      } else {
        SubsequenceTransitive(r[1..], s[1..], t[1..]);
      }
    }
  }

  lemma {:induction false} SubsequenceSnoc<T(!new)>(s: seq<T>, t: seq<T>, x: T)
    requires Subsequence(s, t)
    ensures Subsequence(s, t + [x]) && Subsequence(s + [x], t + [x])
    decreases |t|
  {
    if t == [] {
      assert s == [] && t + [x] == [x] && s + [x] == [x];
      SubsequenceOfItself([x]);
    } else {
      assert (t + [x])[0] == t[0] && (t + [x])[1..] == t[1..] + [x];
      if Subsequence(s, t[1..]) {
        SubsequenceSnoc(s, t[1..], x);
      } else if s != [] {
        SubsequenceSnoc(s[1..], t[1..], x);
        assert (s + [x])[0] == s[0] && (s + [x])[1..] == s[1..] + [x];
      }
    }
  }
}
