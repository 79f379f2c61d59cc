/** Pointers to nodes, and the neighbours of a node in a list of nodes. */
module Pointers {
  import opened Sequences

  datatype Ptr = Null | At(id: nat)

  function HeadOf(s: seq<nat>): Ptr { if s == [] then Null else At(s[0]) }

  ghost function LastOf(s: seq<nat>): Ptr { if s == [] then Null else At(s[|s| - 1]) }

  /** What follows the first x in s. */
  function SuccIn(s: seq<nat>, x: nat): Ptr {
    if s == [] then Null else if s[0] == x then HeadOf(s[1..]) else SuccIn(s[1..], x)
  }

  /** What precedes the last x in s. */
  ghost function PredIn(s: seq<nat>, x: nat): Ptr {
    if s == [] then Null
    else if s[|s| - 1] == x then LastOf(s[..|s| - 1]) else PredIn(s[..|s| - 1], x)
  }

  lemma {:induction false} SuccMiddle(a: seq<nat>, x: nat, b: seq<nat>)
    requires x !in a
    ensures SuccIn(a + [x] + b, x) == HeadOf(b)
  {
    var s := a + [x] + b;
    if a == [] {
      assert s[1..] == b;
    } else {
      SuccMiddle(a[1..], x, b);
      assert s[1..] == a[1..] + [x] + b;
    }
  }

  lemma {:induction false} PredMiddle(a: seq<nat>, x: nat, b: seq<nat>)
    requires x !in b
    ensures PredIn(a + [x] + b, x) == LastOf(a)
  {
    var s := a + [x] + b;
    if b == [] {
      assert s[..|s| - 1] == a;
    } else {
      PredMiddle(a, x, b[..|b| - 1]);
      assert s[..|s| - 1] == a + [x] + b[..|b| - 1];
    }
  }

  /** Splits a sequence without repetitions at a member. */
  lemma SplitAt(s: seq<nat>, x: nat) returns (a: seq<nat>, b: seq<nat>)
    requires NoDup(s) && x in s
    ensures s == a + [x] + b && x !in a && x !in b
  {
    var i :| 0 <= i < |s| && s[i] == x;
    a, b := s[..i], s[i + 1..];
  }

  /** rb_prev inverts rb_next. */
  lemma {:induction false} PredInvertsSucc(s: seq<nat>, x: nat, y: nat)
    requires NoDup(s) && x in s && y in s
    ensures SuccIn(s, x) == At(y) <==> PredIn(s, y) == At(x)
  {
    var a, b := SplitAt(s, x);
    var c, d := SplitAt(s, y);
    SuccMiddle(a, x, b);
    PredMiddle(c, y, d);
    assert s[|a|] == x && s[|c|] == y;
    if b != [] { assert s[|a| + 1] == b[0]; }
    if c != [] { assert s[|c| - 1] == c[|c| - 1]; }
  }

  /** A successor taken before x is erased is what follows x's old place afterwards, so erasing
      while walking skips and repeats nothing. */
  lemma {:induction false} SuccSurvivesRemove(a: seq<nat>, x: nat, b: seq<nat>)
    requires NoDup(a + [x] + b)
    ensures Remove(a + [x] + b, x) == a + b && NoDup(a + b)
    ensures SuccIn(a + [x] + b, x) == HeadOf(b)
    ensures a != [] ==> SuccIn(a + b, a[|a| - 1]) == HeadOf(b)
  {
    OnceInMiddle(a, x, b);
    RemoveMiddle(a, x, b);
    SuccMiddle(a, x, b);
    NoDupWithout(a, x, b);
    if a != [] { SuccOfLast(a, b); }
  }

  lemma NoDupWithout(a: seq<nat>, x: nat, b: seq<nat>)
    requires NoDup(a + [x] + b)
    ensures NoDup(a + b)
  {
    var s, r := a + [x] + b, a + b;
    forall i, j | 0 <= i < j < |r| ensures r[i] != r[j] {
      assert r[i] == s[if i < |a| then i else i + 1] && r[j] == s[if j < |a| then j else j + 1];
    }
  }

  lemma SuccOfLast(a: seq<nat>, b: seq<nat>)
    requires a != [] && NoDup(a + b)
    ensures SuccIn(a + b, a[|a| - 1]) == HeadOf(b)
  {
    var front, last := a[..|a| - 1], a[|a| - 1];
    assert a + b == front + [last] + b;
    OnceInMiddle(front, last, b);
    SuccMiddle(front, last, b);
  }
}
