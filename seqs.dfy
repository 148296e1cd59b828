/** Small facts about sequences and multisets used by the list edits. */
module Seqs {
  lemma Assoc3<T>(a: seq<T>, b: seq<T>, c: seq<T>, d: seq<T>)
    ensures a + (b + c) + d == a + b + c + d
  {
  }

  lemma Assoc2<T>(a: seq<T>, b: seq<T>, c: seq<T>, w: seq<T>)
    requires w == b + c
    ensures a + b + c == a + w
  {
  }

  lemma Assoc4<T>(a: seq<T>, b: seq<T>, c: seq<T>, d: seq<T>, w: seq<T>)
    requires w == b + c + d
    ensures a + b + c + d == a + w
  {
  }

  /** s with the length elements from start on taken out. */
  function Excise<T>(s: seq<T>, start: nat, length: nat): (r: seq<T>)
    requires start + length <= |s|
    ensures |r| == |s| - length
    decreases start
  {
    if start == 0 then s[length..] else [s[0]] + Excise(s[1..], start - 1, length)
  }

  lemma {:induction false} ExciseIs<T>(s: seq<T>, start: nat, length: nat)
    requires start + length <= |s|
    ensures Excise(s, start, length) == s[..start] + s[start + length..]
    decreases start
  {
    if start > 0 {
      ExciseIs(s[1..], start - 1, length);
      assert s[1..][..start - 1] == s[1..start];
      assert s[1..][start - 1 + length..] == s[start + length..];
      assert s[..start] == [s[0]] + s[1..start];
    }
  }

  lemma ExciseOf<T>(t: seq<T>, s: seq<T>, start: nat, length: nat)
    requires start + length <= |s| && t == s[..start] + s[start + length..]
    ensures t == Excise(s, start, length)
  {
    ExciseIs(s, start, length);
  }

  /** s with t put in at offset at. */
  function Splice<T>(s: seq<T>, at: nat, t: seq<T>): (r: seq<T>)
    requires at <= |s|
    ensures |r| == |s| + |t|
    decreases at
  {
    if at == 0 then t + s else [s[0]] + Splice(s[1..], at - 1, t)
  }

  lemma {:induction false} SpliceIs<T>(s: seq<T>, at: nat, t: seq<T>)
    requires at <= |s|
    ensures Splice(s, at, t) == s[..at] + t + s[at..]
    decreases at
  {
    if at > 0 {
      SpliceIs(s[1..], at - 1, t);
      assert s[1..][..at - 1] == s[1..at];
      assert s[1..][at - 1..] == s[at..];
      assert s[..at] == [s[0]] + s[1..at];
    }
  }

  /** Taking out what was put in gives the sequence back, and what was put in is there to take out. */
  lemma {:induction false} ExciseSplice<T>(s: seq<T>, at: nat, t: seq<T>)
    requires at <= |s|
    ensures Splice(s, at, t)[at..at + |t|] == t
    ensures Excise(Splice(s, at, t), at, |t|) == s
    decreases at
  {
    if at > 0 {
      ExciseSplice(s[1..], at - 1, t);
      var r := Splice(s[1..], at - 1, t);
      assert Splice(s, at, t) == [s[0]] + r;
      assert ([s[0]] + r)[1..] == r;
      assert ([s[0]] + r)[at..at + |t|] == r[at - 1..at - 1 + |t|];
    } else {
      assert (t + s)[|t|..] == s;
    }
  }

  /** Putting back r where the sequence shows r, once it was taken out, gives the sequence back. */
  lemma PutBack<T>(s: seq<T>, at: nat, r: seq<T>)
    requires at + |r| <= |s| && s[at..at + |r|] == r
    ensures Splice(Excise(s, at, |r|), at, r) == s
  {
    SpliceExcise(s, at, |r|);
  }

  /** Putting back what was taken out gives the sequence back. */
  lemma {:induction false} SpliceExcise<T>(s: seq<T>, at: nat, length: nat)
    requires at + length <= |s|
    ensures Splice(Excise(s, at, length), at, s[at..at + length]) == s
    decreases at
  {
    if at > 0 {
      SpliceExcise(s[1..], at - 1, length);
      assert s[1..][at - 1..at - 1 + length] == s[at..at + length];
      assert Excise(s, at, length)[1..] == Excise(s[1..], at - 1, length);
    } else {
      assert s[..length] + s[length..] == s;
    }
  }

  /** The elements of s, last first. */
  function Reversed<T>(s: seq<T>): (r: seq<T>)
    ensures |r| == |s|
    decreases |s|
  {
    if |s| == 0 then [] else [s[|s| - 1]] + Reversed(s[..|s| - 1])
  }

  /** Reversed puts element i at |s| - 1 - i and keeps the elements. */
  lemma {:induction false} ReversedAt<T>(s: seq<T>)
    ensures forall i :: 0 <= i < |s| ==> Reversed(s)[i] == s[|s| - 1 - i]
    ensures multiset(Reversed(s)) == multiset(s)
    decreases |s|
  {
    if |s| > 0 {
      var init := s[..|s| - 1];
      ReversedAt(init);
      assert s == init + [s[|s| - 1]];
      forall i | 0 <= i < |s| ensures Reversed(s)[i] == s[|s| - 1 - i] {
        if i > 0 {
          assert Reversed(s)[i] == Reversed(init)[i - 1];
        }
      }
    }
  }

  lemma SplitAt<T>(s: seq<T>, k: int)
    requires 0 <= k < |s|
    ensures s == (s[..k] + [s[k]]) + s[k + 1..]
  {
  }

  lemma ReplaceAt<T>(s: seq<T>, k: int, x: T)
    requires 0 <= k < |s|
    ensures s[k := x] == (s[..k] + [x]) + s[k + 1..]
  {
  }

  lemma DropLast<T>(s: seq<T>, t: seq<T>)
    requires |t| > 0
    ensures (s + t)[..|s + t| - 1] == s + t[..|t| - 1]
    ensures (s + t)[|s + t| - 1] == t[|t| - 1]
  {
  }

  lemma AppendOne<T>(s: seq<T>, a: T)
    ensures (s + [a])[..|s|] == s
  {
  }

  lemma CountOfSum<T>(a: multiset<T>, b: multiset<T>, c: multiset<T>, d: multiset<T>, x: T)
    requires a + b == c + d
    ensures a[x] + b[x] == c[x] + d[x]
  {
    assert (a + b)[x] == (c + d)[x];
  }

  lemma CountOfPart<T>(a: multiset<T>, b: multiset<T>, c: multiset<T>, m: multiset<T>, x: T)
    requires m == a + b + c
    ensures b[x] <= m[x]
  {
  }

  /** One element put at offset rel inside the middle part t. */
  lemma InsertInto<T>(a: seq<T>, t: seq<T>, b: seq<T>, c: seq<T>, rel: int, x: T)
    requires 0 <= rel <= |t|
    ensures (a + t + b + c)[..|a| + rel] + [x] + (a + t + b + c)[|a| + rel..] == a + (t[..rel] + [x] + t[rel..]) + b + c
  {
    var s := a + t + b + c;
    assert s[..|a| + rel] == a + t[..rel];
    assert s[|a| + rel..] == t[rel..] + b + c;
  }

  /** The element at offset |t| (the first of u) dropped: t and the rest of u join. */
  lemma DropAfter<T>(a: seq<T>, t: seq<T>, u: seq<T>, c: seq<T>)
    requires |u| > 0
    ensures (a + t + u + c)[..|a| + |t|] + (a + t + u + c)[|a| + |t| + 1..] == a + t + u[1..] + c
  {
    var s := a + t + u + c;
    assert s[..|a| + |t|] == a + t;
    assert s[|a| + |t| + 1..] == u[1..] + c;
  }

  /** The single separator n between t and u dropped: t and u join. */
  lemma JoinAt<T>(a: seq<T>, t: seq<T>, n: seq<T>, u: seq<T>, m: seq<T>, b: seq<T>)
    requires |n| == 1
    ensures var s := a + t + n + u + m + b;
      && s[|a| + |t|] == n[0]
      && s[..|a| + |t|] + s[|a| + |t| + 1..] == a + (t + u) + m + b
  {
    var s := a + t + n + u + m + b;
    assert s[..|a| + |t|] == a + t;
    assert s[|a| + |t| + 1..] == u + m + b;
  }

  /** dec elements cut at offset cur inside the middle part t. */
  lemma CutInto<T>(a: seq<T>, t: seq<T>, b: seq<T>, c: seq<T>, cur: int, dec: int)
    requires 0 <= cur && 0 <= dec && cur + dec <= |t|
    ensures (a + t + b + c)[..|a| + cur] + (a + t + b + c)[|a| + cur + dec..] == a + (t[..cur] + t[cur + dec..]) + b + c
  {
    var s := a + t + b + c;
    assert s[..|a| + cur] == a + t[..cur];
    assert s[|a| + cur + dec..] == t[cur + dec..] + b + c;
  }

  /** Inserting x after the first i elements of the inserted text t. */
  lemma InsertNext<T>(f: seq<T>, f0: seq<T>, t: seq<T>, p: int, i: int)
    requires 0 <= p <= |f0| && 0 <= i < |t|
    requires f == f0[..p] + t[..i] + f0[p..]
    ensures f[..p + i] + [t[i]] + f[p + i..] == f0[..p] + t[..i + 1] + f0[p..]
  {
    assert f[..p + i] == f0[..p] + t[..i];
    assert f[p + i..] == f0[p..];
    assert t[..i + 1] == t[..i] + [t[i]];
  }

  /** Dropping position q inside the pending span [s, s + d) keeps what the span leaves out. */
  lemma DropInside<T>(f: seq<T>, s: int, d: int, q: int)
    requires 0 <= s <= q < s + d <= |f|
    ensures var g := f[..q] + f[q + 1..];
      g[..s] + g[s + d - 1..] == f[..s] + f[s + d..]
  {
    var g := f[..q] + f[q + 1..];
    assert g[..s] == f[..s];
    assert g[s + d - 1..] == f[s + d..];
  }

  /** InsertNext, for a sequence g that is f with c put in at q. */
  lemma InsertNextAt<T>(g: seq<T>, f: seq<T>, f0: seq<T>, t: seq<T>, p: int, i: int, q: int, c: T)
    requires 0 <= p <= |f0| && 0 <= i < |t| && f == f0[..p] + t[..i] + f0[p..]
    requires q == p + i && c == t[i] && g == f[..q] + [c] + f[q..]
    ensures g == f0[..p] + t[..i + 1] + f0[p..]
  {
    InsertNext(f, f0, t, p, i);
  }

  /** An insertion before the last element leaves that element last. */
  lemma InsertBeforeLast<T>(f: seq<T>, f0: seq<T>, t: seq<T>, p: int)
    requires 0 <= p < |f0| && f == f0[..p] + t + f0[p..]
    ensures |f| > 0 && f[..|f| - 1] == Splice(f0[..|f0| - 1], p, t)
  {
    var g := f0[..|f0| - 1];
    SpliceIs(g, p, t);
    assert f0[p..] == g[p..] + [f0[|f0| - 1]];
    assert f0[..p] == g[..p];
  }

  /** A cut before the last element leaves that element last. */
  lemma CutBeforeLast<T>(f: seq<T>, f0: seq<T>, p: int, n: int)
    requires 0 <= p && 0 <= n && p + n < |f0| && f == f0[..p] + f0[p + n..]
    ensures var g := f0[..|f0| - 1];
      |f| > 0 && f[..|f| - 1] == g[..p] + g[p + n..]
  {
    var g := f0[..|f0| - 1];
    assert f0[p + n..] == g[p + n..] + [f0[|f0| - 1]];
    assert f0[..p] == g[..p];
  }
}
