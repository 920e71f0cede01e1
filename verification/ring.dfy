/** Circular doubly linked rings threaded through the fd and bk fields of chunks.
    Each struct field of the heap's memory is a map from addresses to contents. */
module Ring {
  import opened Sequences

  type Field = map<int, int>

  /** fd leads from a through the elements of s to b, and bk leads back. */
  predicate Chain(fd: Field, bk: Field, a: int, s: seq<int>, b: int)
    decreases |s|
  {
    var n := if s == [] then b else s[0];
    && a in fd && fd[a] == n && n in bk && bk[n] == a
    && (s != [] ==> Chain(fd, bk, n, s[1..], b))
  }

  /** The elements of s, in fd order, form a ring. */
  predicate RingOk(fd: Field, bk: Field, s: seq<int>)
  {
    |s| > 0 && NoDup(s) && Chain(fd, bk, s[0], s[1..], s[0])
  }

  function InsertSecond(s: seq<int>, x: int): seq<int>
  {
    if s == [] then [x] else [s[0], x] + s[1..]
  }

  /** The ring after its first element is unlinked, starting from the old last element. */
  function DropFirst(s: seq<int>): seq<int>
    requires |s| > 1
  {
    [s[|s| - 1]] + s[1..|s| - 1]
  }

  predicate Same(m: Field, m': Field, x: int)
  {
    x in m ==> x in m' && m'[x] == m[x]
  }

  lemma {:induction false} ChainFrame(fd: Field, bk: Field, fd': Field, bk': Field, a: int, s: seq<int>, b: int)
    requires Chain(fd, bk, a, s, b)
    requires Same(fd, fd', a) && forall x :: x in s ==> Same(fd, fd', x)
    requires Same(bk, bk', b) && forall x :: x in s ==> Same(bk, bk', x)
    ensures Chain(fd', bk', a, s, b)
    decreases |s|
  {
    if s != [] {
      assert s[0] in s;
      ChainFrame(fd, bk, fd', bk', s[0], s[1..], b);
    }
  }

  lemma {:induction false} ChainJoin(fd: Field, bk: Field, a: int, s: seq<int>, x: int, t: seq<int>, b: int)
    ensures Chain(fd, bk, a, s + [x] + t, b) <==> Chain(fd, bk, a, s, x) && Chain(fd, bk, x, t, b)
    decreases |s|
  {
    var u := s + [x] + t;
    if s == [] {
      assert u[1..] == t;
    } else {
      assert u[1..] == s[1..] + [x] + t;
      ChainJoin(fd, bk, s[0], s[1..], x, t, b);
    }
  }

  lemma RingFrame(fd: Field, bk: Field, fd': Field, bk': Field, s: seq<int>)
    requires RingOk(fd, bk, s)
    requires forall x :: x in s ==> Same(fd, fd', x) && Same(bk, bk', x)
    ensures RingOk(fd', bk', s)
  {
    assert s[0] in s;
    ChainFrame(fd, bk, fd', bk', s[0], s[1..], s[0]);
  }

  lemma RingInsert(fd: Field, bk: Field, s: seq<int>, x: int)
    requires RingOk(fd, bk, s) && x !in s
    ensures var f := fd[s[0]]; RingOk(fd[s[0] := x][x := f], bk[f := x][x := s[0]], InsertSecond(s, x))
  {
    var h, f := s[0], fd[s[0]];
    var fd', bk' := fd[h := x][x := f], bk[f := x][x := h];
    var r := InsertSecond(s, x);
    assert r[1..] == [x] + s[1..] && r[1..][1..] == s[1..];
    if |s| > 1 {
      assert f == s[1] && s[1..][0] == f && s[1..][1..] == s[2..];
      ChainFrame(fd, bk, fd', bk', f, s[2..], h);
    }
  }

  /** A ring may be listed from any of its elements; here from the last one. */
  lemma RingFromLast(fd: Field, bk: Field, s: seq<int>)
    requires RingOk(fd, bk, s) && |s| > 1
    ensures RingOk(fd, bk, [s[|s| - 1]] + s[..|s| - 1])
  {
    var last, mid := s[|s| - 1], s[1..|s| - 1];
    assert s[1..] == mid + [last] + [];
    ChainJoin(fd, bk, s[0], mid, last, [], s[0]);
    ChainJoin(fd, bk, last, [], s[0], mid, last);
    var r := [last] + s[..|s| - 1];
    assert r[1..] == [] + [s[0]] + mid;
  }

  /** The links of x leave the two arms of the ring joined once they bypass it. */
  lemma ChainBypass(fd: Field, bk: Field, a: int, s: seq<int>, x: int, t: seq<int>)
    requires Chain(fd, bk, a, s, x) && Chain(fd, bk, x, t, a)
    requires a !in s && a !in t && NoDup(s) && NoDup(t) && x != a && x !in s && x !in t
    requires forall y :: y in s ==> y !in t
    ensures x in fd && x in bk && Chain(fd[bk[x] := fd[x]], bk[fd[x] := bk[x]], a, s + t, a)
  {
    ChainBack(fd, bk, a, s, x);
    var f, p := fd[x], bk[x];
    var fd', bk' := fd[p := f], bk[f := p];
    assert p == a || p in s;
    if t != [] {
      assert forall y :: y in t[1..] ==> y in t;
      assert f == t[0] && f !in t[1..];
      ChainFrame(fd, bk, fd', bk', f, t[1..], a);
    }
    assert Chain(fd', bk', p, t, a);
    if s == [] {
      assert s + t == t;
    } else {
      var s' := s[..|s| - 1];
      assert s == s' + [p] + [];
      ChainJoin(fd, bk, a, s', p, [], x);
      assert forall y :: y in s' ==> y in s && y != p by {
        forall y | y in s' ensures y in s && y != p { var j :| 0 <= j < |s'| && s'[j] == y; assert s[j] == y; }
      }
      ChainFrame(fd, bk, fd', bk', a, s', p);
      ChainJoin(fd', bk', a, s', p, t, a);
      assert s' + [p] + t == s + t;
    }
  }

  lemma {:induction false} ChainBack(fd: Field, bk: Field, a: int, s: seq<int>, b: int)
    requires Chain(fd, bk, a, s, b)
    ensures b in bk && bk[b] == if s == [] then a else s[|s| - 1]
    decreases |s|
  {
    if s != [] { ChainBack(fd, bk, s[0], s[1..], b); }
  }

  lemma RingUnlink(fd: Field, bk: Field, s: seq<int>, k: nat)
    requires RingOk(fd, bk, s) && 0 < k < |s|
    ensures s[k] in fd && s[k] in bk
    ensures var f, b := fd[s[k]], bk[s[k]]; RingOk(fd[b := f], bk[f := b], Without(s, k))
  {
    assert s[1..] == s[1..k] + [s[k]] + s[k + 1..];
    ChainJoin(fd, bk, s[0], s[1..k], s[k], s[k + 1..], s[0]);
    ChainBypass(fd, bk, s[0], s[1..k], s[k], s[k + 1..]);
    assert Without(s, k)[1..] == s[1..k] + s[k + 1..];
  }

  lemma RingDropFirst(fd: Field, bk: Field, s: seq<int>)
    requires RingOk(fd, bk, s) && |s| > 1
    ensures s[0] in fd && s[0] in bk
    ensures var f, b := fd[s[0]], bk[s[0]];
      f == s[1] && b == s[|s| - 1] && RingOk(fd[b := f], bk[f := b], DropFirst(s))
  {
    RingFromLast(fd, bk, s);
    var r := [s[|s| - 1]] + s[..|s| - 1];
    RingUnlink(fd, bk, r, 1);
    assert Without(r, 1) == DropFirst(s);
    ChainBack(fd, bk, s[0], s[1..], s[0]);
  }

  /** A ring has one element exactly when that element links to itself. */
  lemma RingAlone(fd: Field, bk: Field, s: seq<int>, k: nat)
    requires RingOk(fd, bk, s) && k < |s|
    ensures s[k] in fd && s[k] in bk
    ensures bk[s[k]] == s[k] <==> |s| == 1
    ensures bk[s[k]] in s && fd[s[k]] in s
  {
    if k == 0 {
      ChainBack(fd, bk, s[0], s[1..], s[0]);
    } else {
      assert s[1..] == s[1..k] + [s[k]] + s[k + 1..];
      ChainJoin(fd, bk, s[0], s[1..k], s[k], s[k + 1..], s[0]);
      ChainBack(fd, bk, s[0], s[1..k], s[k]);
      assert s[k - 1] != s[k];
    }
  }

  /** The two neighbours of an element coincide exactly when the ring has at most two elements. */
  lemma RingArms(fd: Field, bk: Field, s: seq<int>, k: nat)
    requires RingOk(fd, bk, s) && 0 < k < |s|
    ensures s[k] in fd && s[k] in bk
    ensures fd[s[k]] == (if k + 1 < |s| then s[k + 1] else s[0]) && bk[s[k]] == s[k - 1]
    ensures fd[s[k]] == bk[s[k]] <==> |s| == 2
  {
    assert s[1..] == s[1..k] + [s[k]] + s[k + 1..];
    ChainJoin(fd, bk, s[0], s[1..k], s[k], s[k + 1..], s[0]);
    ChainBack(fd, bk, s[0], s[1..k], s[k]);
  }
}
