/** Small facts about sequences. */
module Sequences {
  lemma Associative<T>(a: seq<T>, b: seq<T>, c: seq<T>)
    ensures a + b + c == a + (b + c)
  {
  }

  lemma NothingAdded<T>(a: seq<T>, b: seq<T>, c: seq<T>)
    requires |b| == 0
    ensures a + (b + c) == a + c && a + b == a
  {
    assert b + c == c;
  }

  lemma PrefixCancels<T>(a: seq<T>, b: seq<T>, c: seq<T>)
    ensures a + b == a + c <==> b == c
  {
    if a + b == a + c {
      assert |b| == |c|;
      assert b == (a + b)[|a|..] == (a + c)[|a|..] == c;
    }
  }

  lemma SuffixCancels<T>(a: seq<T>, b: seq<T>, c: seq<T>)
    ensures a + c == b + c <==> a == b
  {
    if a + c == b + c {
      assert |a| == |b|;
      assert a == (a + c)[..|a|] == (b + c)[..|b|] == b;
    }
  }

  lemma HeadsAndTails<T>(x: T, a: seq<T>, y: T, b: seq<T>)
    ensures [x] + a == [y] + b <==> x == y && a == b
  {
    if [x] + a == [y] + b {
      assert x == ([x] + a)[0] == ([y] + b)[0] == y;
      assert a == ([x] + a)[1..] == ([y] + b)[1..] == b;
    }
  }

  lemma SliceSnoc<T>(s: seq<T>, i: nat)
    requires i < |s|
    ensures s[..i + 1] == s[..i] + [s[i]] && s == s[..i + 1] + s[i + 1..]
  {
  }

  lemma SliceAround<T>(s: seq<T>, i: nat)
    requires i < |s|
    ensures s == s[..i] + ([s[i]] + s[i + 1..])
  {
  }

  lemma FirstShifted<T>(a: seq<T>, x: T, s: seq<T>, i: nat)
    requires i <= |s|
    ensures a + [x] + s[..i] == a + ([x] + s)[..i + 1]
  {
  }

  lemma CutInFirst<T>(a: seq<T>, b: seq<T>, n: nat)
    requires n <= |a|
    ensures (a + b)[..n] == a[..n] && (a + b)[n..] == a[n..] + b
  {
  }

  lemma CutInSecond<T>(a: seq<T>, b: seq<T>, n: nat)
    requires n <= |b|
    ensures (a + b)[..|a| + n] == a + b[..n] && (a + b)[|a| + n..] == b[n..]
  {
  }

  lemma WithoutLater<T>(s: seq<T>, i: nat)
    requires 0 < i < |s|
    ensures s[1..][i - 1] == s[i] && s[..i] + s[i + 1..] == [s[0]] + (s[1..][..i - 1] + s[1..][i - 1 + 1..])
  {
    assert s[..i] == [s[0]] + s[1..][..i - 1];
  }

  lemma CommonPrefix<T>(first: seq<T>, a: seq<T>, b: seq<T>, c: seq<T>)
    ensures first + a + b == first + c <==> a + b == c
  {
    Associative(first, a, b);
    PrefixCancels(first, a + b, c);
  }

  lemma SlicesMeet<T>(s: seq<T>, a: nat, b: nat)
    requires a <= b <= |s|
    ensures s[a..b] + s[b..] == s[a..]
  {
  }

  lemma InThree<T>(s: seq<T>, a: nat, b: nat)
    requires a <= b <= |s|
    ensures s == s[..a] + s[a..b] + s[b..]
  {
  }
}
