/** Small value types and sequence vocabulary shared by the Str8ts model. */
module Util {

  /** Rust's Option. */
  datatype Option<T> = None | Some(value: T)

  /** Concatenation of a list of lists, in order. */
  function Flatten<T>(ss: seq<seq<T>>): seq<T>
  {
    if ss == [] then [] else ss[0] + Flatten(ss[1..])
  }

  lemma {:induction false} FlattenMember<T>(ss: seq<seq<T>>, x: T)
    ensures x in Flatten(ss) <==> exists s :: 0 <= s < |ss| && x in ss[s]
  {
    if ss != [] {
      FlattenMember(ss[1..], x);
      if x in Flatten(ss[1..]) {
        var s :| 0 <= s < |ss[1..]| && x in ss[1..][s];
        assert x in ss[s + 1];
      }
      forall s | 0 <= s < |ss| && x in ss[s]
        ensures x in Flatten(ss)
      {
        if s > 0 {
          assert x in ss[1..][s - 1];
        }
      }
    }
  }

  /** Flattening a list that starts with x yields x, then the rest flattened. */
  lemma FlattenCons<T>(x: seq<T>, rest: seq<seq<T>>)
    ensures Flatten([x] + rest) == x + Flatten(rest)
  {
    assert ([x] + rest)[1..] == rest;
  }

  /** A suffix splits at any point inside it. */
  lemma SliceSplit<T>(s: seq<T>, i: nat, j: nat)
    requires i <= j <= |s|
    ensures s[i..] == s[i..j] + s[j..]
  {
  }

  /** No element occurs twice. */
  predicate Distinct<T(==)>(s: seq<T>)
  {
    forall a, c :: 0 <= a < c < |s| ==> s[a] != s[c]
  }

  lemma {:induction false} FlattenDistinctDisjoint<T>(ss: seq<seq<T>>, x: T, s1: nat, s2: nat)
    requires Distinct(Flatten(ss))
    requires s1 < s2 < |ss| && x in ss[s1]
    ensures x !in ss[s2]
  {
    var rest := Flatten(ss[1..]);
    assert Flatten(ss) == ss[0] + rest;
    if s1 == 0 {
      var a :| 0 <= a < |ss[0]| && ss[0][a] == x;
      forall c | 0 <= c < |rest| ensures rest[c] != x {
        assert Flatten(ss)[a] == x && Flatten(ss)[|ss[0]| + c] == rest[c];
      }
      FlattenMember(ss[1..], x);
      assert ss[s2] == ss[1..][s2 - 1];
    } else {
      forall a, c | 0 <= a < c < |rest|
        ensures rest[a] != rest[c]
      {
        assert rest[a] == Flatten(ss)[|ss[0]| + a] && rest[c] == Flatten(ss)[|ss[0]| + c];
      }
      assert x in ss[1..][s1 - 1] && ss[s2] == ss[1..][s2 - 1];
      FlattenDistinctDisjoint(ss[1..], x, s1 - 1, s2 - 1);
    }
  }

  predicate StrictlyAscending(s: seq<int>)
  {
    forall a, c :: 0 <= a < c < |s| ==> s[a] < s[c]
  }

  /** Appending a value above every member keeps a sequence strictly ascending. */
  lemma AscendingSnoc(s: seq<int>, x: int)
    requires StrictlyAscending(s) && forall y :: y in s ==> y < x
    ensures StrictlyAscending(s + [x])
  {
    var r := s + [x];
    forall a, c | 0 <= a < c < |r|
      ensures r[a] < r[c]
    {
      assert r[a] == s[a] && r[a] in s;
    }
  }

  /** `a` can be obtained from `b` by deleting elements (order is kept). */
  predicate IsSubseq<T(==)>(a: seq<T>, b: seq<T>)
    decreases |b|
  {
    if a == [] then true
    else if b == [] then false
    else if a[0] == b[0] then IsSubseq(a[1..], b[1..])
    else IsSubseq(a, b[1..])
  }

  lemma {:induction false} SubseqMembers<T>(a: seq<T>, b: seq<T>)
    requires IsSubseq(a, b)
    ensures forall x :: x in a ==> x in b
    decreases |b|
  {
    if a != [] && b != [] {
      if a[0] == b[0] {
        SubseqMembers(a[1..], b[1..]);
        forall x | x in a ensures x in b {
          if x != a[0] {
            assert x in a[1..];
          }
        }
      } else {
        SubseqMembers(a, b[1..]);
      }
    }
  }

  lemma {:induction false} SubseqAscending(a: seq<int>, b: seq<int>)
    requires IsSubseq(a, b) && StrictlyAscending(b)
    ensures StrictlyAscending(a)
    decreases |b|
  {
    if a != [] && b != [] {
      assert StrictlyAscending(b[1..]) by {
        forall x, y | 0 <= x < y < |b[1..]| ensures b[1..][x] < b[1..][y] {
          assert b[1..][x] == b[x + 1] && b[1..][y] == b[y + 1];
        }
      }
      if a[0] == b[0] {
        SubseqAscending(a[1..], b[1..]);
        SubseqMembers(a[1..], b[1..]);
        forall x, y | 0 <= x < y < |a| ensures a[x] < a[y] {
          if x == 0 {
            assert a[y] == a[1..][y - 1];
            assert a[y] in b[1..];
          } else {
            assert a[x] == a[1..][x - 1] && a[y] == a[1..][y - 1];
          }
        }
      } else {
        SubseqAscending(a, b[1..]);
      }
    }
  }

  lemma {:induction false} SubseqCons<T>(a: seq<T>, b: seq<T>, y: T)
    requires IsSubseq(a, b)
    ensures IsSubseq(a, [y] + b)
    decreases |b|, 1
  {
    assert ([y] + b)[1..] == b;
    if a != [] && a[0] == y {
      SubseqDropHead(a, b);
    }
  }

  lemma {:induction false} SubseqDropHead<T>(a: seq<T>, b: seq<T>)
    requires a != [] && IsSubseq(a, b)
    ensures IsSubseq(a[1..], b)
    decreases |b|, 0
  {
    if a[0] == b[0] {
      SubseqCons(a[1..], b[1..], b[0]);
    } else {
      SubseqDropHead(a, b[1..]);
      SubseqCons(a[1..], b[1..], b[0]);
    }
    assert [b[0]] + b[1..] == b;
  }

  /** Keeping an element on both sides, or adding one on the right only, keeps a subsequence. */
  lemma {:induction false} SubseqSnoc<T>(a: seq<T>, b: seq<T>, x: T)
    requires IsSubseq(a, b)
    ensures IsSubseq(a, b + [x]) && IsSubseq(a + [x], b + [x])
    decreases |b|
  {
    if b == [] {
      assert a == [] && [] + [x] == [x] && [x][1..] == [];
    } else {
      assert (b + [x])[0] == b[0] && (b + [x])[1..] == b[1..] + [x];
      if a == [] {
        SubseqSnoc(a, b[1..], x);
        assert a + [x] == [x] && [x][1..] == [];
      } else {
        assert (a + [x])[0] == a[0] && (a + [x])[1..] == a[1..] + [x];
        if a[0] == b[0] {
          SubseqSnoc(a[1..], b[1..], x);
        } else {
          SubseqSnoc(a, b[1..], x);
        }
      }
    }
  }

  lemma {:induction false} SubseqRefl<T>(a: seq<T>)
    ensures IsSubseq(a, a)
  {
    if a != [] {
      SubseqRefl(a[1..]);
    }
  }

  lemma {:induction false} SubseqTrans<T>(a: seq<T>, b: seq<T>, c: seq<T>)
    requires IsSubseq(a, b) && IsSubseq(b, c)
    ensures IsSubseq(a, c)
    decreases |c|
  {
    if a != [] {
      if b[0] == c[0] {
        if a[0] == b[0] {
          SubseqTrans(a[1..], b[1..], c[1..]);
        } else {
          SubseqTrans(a, b[1..], c[1..]);
          assert a[0] != c[0];
        }
      } else {
        SubseqTrans(a, b, c[1..]);
        if a[0] == c[0] {
          SubseqDropHead(a, c[1..]);
        }
      }
    }
  }

  function Max(s: seq<int>): (m: int)
    requires s != []
    ensures m in s && forall x :: x in s ==> x <= m
  {
    if |s| == 1 then s[0]
    else
      var rest := Max(s[1..]);
      assert forall x :: x in s ==> x == s[0] || x in s[1..];
      if s[0] >= rest then s[0] else rest
  }

  function Min(s: seq<int>): (m: int)
    requires s != []
    ensures m in s && forall x :: x in s ==> m <= x
  {
    if |s| == 1 then s[0]
    else
      var rest := Min(s[1..]);
      assert forall x :: x in s ==> x == s[0] || x in s[1..];
      if s[0] <= rest then s[0] else rest
  }
}
