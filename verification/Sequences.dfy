/** Facts about sequences that several modules need: concatenation, and lists of node addresses
    without repetition. */
module Sequences {

  lemma ConcatAssoc<T>(a: seq<T>, b: seq<T>, c: seq<T>)
    ensures a + (b + c) == (a + b) + c
  {
  }

  lemma ConcatNone<T>(a: seq<T>)
    ensures a + [] == a && [] + a == a
  {
  }

  /** A longer slice. */
  lemma SliceStep<T>(s: seq<T>, a: nat, n: nat)
    requires a <= n < |s|
    ensures s[a..n] + [s[n]] == s[a..n + 1] && (s[a..n] == [] <==> a == n)
  {
  }

  // ----- lists without repetition -----

  ghost predicate NoDup(s: seq<nat>) {
    forall i, j :: 0 <= i < j < |s| ==> s[i] != s[j]
  }

  /** s without its first x. */
  ghost function Remove(s: seq<nat>, x: nat): seq<nat> {
    if s == [] then [] else if s[0] == x then s[1..] else [s[0]] + Remove(s[1..], x)
  }

  lemma {:induction false} RemoveMiddle(a: seq<nat>, x: nat, b: seq<nat>)
    requires x !in a
    ensures Remove(a + [x] + b, x) == a + b
  {
    var s := a + [x] + b;
    if a == [] {
      assert s[1..] == b == a + b;
    } else {
      RemoveMiddle(a[1..], x, b);
      assert s[1..] == a[1..] + [x] + b;
      assert [a[0]] + (a[1..] + b) == a + b;
    }
  }

  lemma OnceInMiddle(a: seq<nat>, x: nat, b: seq<nat>)
    requires NoDup(a + [x] + b)
    ensures x !in a && x !in b
  {
    var s := a + [x] + b;
    assert s[|a|] == x;
    forall i | 0 <= i < |a| ensures a[i] != x { assert s[i] == a[i]; }
    forall i | 0 <= i < |b| ensures b[i] != x { assert s[|a| + 1 + i] == b[i]; }
  }

  lemma {:induction false} RemoveFacts(s: seq<nat>, x: nat)
    ensures x !in s ==> Remove(s, x) == s
    ensures NoDup(s) ==> NoDup(Remove(s, x)) && forall y :: y in Remove(s, x) <==> y in s && y != x
    ensures |Remove(s, x)| == if x in s then |s| - 1 else |s|
    ensures forall y :: y in Remove(s, x) ==> y in s
  {
    if s != [] {
      RemoveFacts(s[1..], x);
      assert s == [s[0]] + s[1..];
      if NoDup(s) {
        assert NoDup(s[1..]) && s[0] !in s[1..];
        if s[0] != x {
          var r := Remove(s[1..], x);
          assert NoDup([s[0]] + r) by { assert s[0] !in r; }
        }
      }
    }
  }

  // ----- order of two members -----

  ghost predicate Earlier(l: seq<nat>, x: nat, y: nat) {
    exists i, j :: 0 <= i < j < |l| && l[i] == x && l[j] == y
  }

  lemma EarlierIn(l: seq<nat>, x: nat, y: nat)
    requires Earlier(l, x, y)
    ensures x in l && y in l && (NoDup(l) ==> x != y)
  {
  }

  lemma EarlierSplit(a: seq<nat>, b: seq<nat>, x: nat, y: nat)
    ensures Earlier(a + b, x, y) <==> Earlier(a, x, y) || Earlier(b, x, y) || (x in a && y in b)
  {
    var l := a + b;
    if Earlier(l, x, y) {
      var i, j :| 0 <= i < j < |l| && l[i] == x && l[j] == y;
      if j < |a| {
        assert a[i] == x && a[j] == y;
      } else if i >= |a| {
        assert b[i - |a|] == x && b[j - |a|] == y;
      }
    }
    if Earlier(a, x, y) {
      var i, j :| 0 <= i < j < |a| && a[i] == x && a[j] == y;
      assert l[i] == x && l[j] == y;
    }
    if Earlier(b, x, y) {
      var i, j :| 0 <= i < j < |b| && b[i] == x && b[j] == y;
      assert l[|a| + i] == x && l[|a| + j] == y;
    }
    if x in a && y in b {
      var i :| 0 <= i < |a| && a[i] == x;
      var j :| 0 <= j < |b| && b[j] == y;
      assert l[i] == x && l[|a| + j] == y;
    }
  }

  lemma EarlierSingle(e: nat, x: nat, y: nat)
    ensures !Earlier([e], x, y)
  {
  }

  /** Putting e between a and b, or taking it out, leaves the order of the others alone. */
  lemma EarlierAround(a: seq<nat>, e: nat, b: seq<nat>, x: nat, y: nat)
    requires x != e && y != e
    ensures Earlier(a + [e] + b, x, y) <==> Earlier(a + b, x, y)
  {
    EarlierSplit(a + [e], b, x, y);
    EarlierSplit(a, [e], x, y);
    EarlierSplit(a, b, x, y);
    EarlierSingle(e, x, y);
  }

  lemma EarlierRemoved(l: seq<nat>, e: nat, x: nat, y: nat)
    requires NoDup(l) && x != e && y != e
    ensures Earlier(Remove(l, e), x, y) <==> Earlier(l, x, y)
  {
    if e in l {
      var k :| 0 <= k < |l| && l[k] == e;
      assert l == l[..k] + [e] + l[k + 1..];
      RemoveMiddle(l[..k], e, l[k + 1..]);
      EarlierAround(l[..k], e, l[k + 1..], x, y);
    } else {
      RemoveFacts(l, e);
    }
  }

  lemma EarlierTotal(l: seq<nat>, x: nat, y: nat)
    requires x in l && y in l && x != y
    ensures Earlier(l, x, y) || Earlier(l, y, x)
  {
    var i :| 0 <= i < |l| && l[i] == x;
    var j :| 0 <= j < |l| && l[j] == y;
  }

  lemma EarlierOneWay(l: seq<nat>, x: nat, y: nat)
    requires NoDup(l) && Earlier(l, x, y)
    ensures !Earlier(l, y, x)
  {
  }

  lemma EarlierTail(t: seq<nat>, x: nat, y: nat)
    requires t != []
    ensures Earlier(t[1..], x, y) ==> Earlier(t, x, y)
    ensures Earlier(t, x, y) && x != t[0] && y != t[0] ==> Earlier(t[1..], x, y)
  {
    assert t == [t[0]] + t[1..];
    EarlierSplit([t[0]], t[1..], x, y);
    EarlierSingle(t[0], x, y);
  }
}
