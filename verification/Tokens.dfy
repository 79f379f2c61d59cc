/** Splitting byte strings: what a token is, and the splitter of sstring.h. */
module Tokens {
  import opened Sequences

  newtype byte = x: int | 0 <= x < 256

  // ----- tokens as maximal runs -----

  /** s[a..b] is a run of non-separators that cannot be made longer. */
  ghost predicate MaximalRun(s: seq<byte>, sep: seq<byte>, a: int, b: int) {
    && 0 <= a < b <= |s|
    && (forall i :: a <= i < b ==> s[i] !in sep)
    && (a == 0 || s[a - 1] in sep)
    && (b == |s| || s[b] in sep)
  }

  /** Where the run that is still open before position n began; n when there is none. */
  function OpenAt(s: seq<byte>, sep: seq<byte>, n: nat): (a: nat)
    requires n <= |s|
    ensures a <= n && (forall i :: a <= i < n ==> s[i] !in sep) && (a == 0 || s[a - 1] in sep)
  {
    if n == 0 || s[n - 1] in sep then n else OpenAt(s, sep, n - 1)
  }

  /** The runs that a separator before position n has ended. */
  function Ended(s: seq<byte>, sep: seq<byte>, n: nat): seq<(nat, nat)>
    requires n <= |s|
  {
    if n == 0 then []
    else if s[n - 1] in sep && OpenAt(s, sep, n - 1) < n - 1 then
      Ended(s, sep, n - 1) + [(OpenAt(s, sep, n - 1), n - 1)]
    else Ended(s, sep, n - 1)
  }

  /** All runs: the ended ones and the one that reaches the end of s. */
  function Runs(s: seq<byte>, sep: seq<byte>): seq<(nat, nat)> {
    var a := OpenAt(s, sep, |s|);
    Ended(s, sep, |s|) + if a < |s| then [(a, |s|)] else []
  }

  /** The runs come left to right and do not touch. */
  ghost predicate LeftToRight(runs: seq<(nat, nat)>) {
    forall i, j :: 0 <= i < j < |runs| ==> runs[i].1 < runs[j].0
  }

  lemma {:induction false} EndedExact(s: seq<byte>, sep: seq<byte>, n: nat)
    requires n <= |s|
    ensures forall a, b :: (a, b) in Ended(s, sep, n) <==> MaximalRun(s, sep, a, b) && b < n
    ensures LeftToRight(Ended(s, sep, n))
    ensures forall r :: r in Ended(s, sep, n) ==> r.1 < OpenAt(s, sep, n)
  {
    if n > 0 {
      EndedExact(s, sep, n - 1);
      var o := OpenAt(s, sep, n - 1);
      forall a, b | MaximalRun(s, sep, a, b) && b == n - 1 ensures a == o && s[n - 1] in sep {
        if a < o { assert false; }
      }
    }
  }

  /** The runs found are all maximal runs and nothing else, in order. */
  lemma RunsExact(s: seq<byte>, sep: seq<byte>)
    ensures forall a, b :: (a, b) in Runs(s, sep) <==> MaximalRun(s, sep, a, b)
    ensures LeftToRight(Runs(s, sep))
  {
    EndedExact(s, sep, |s|);
    var o := OpenAt(s, sep, |s|);
    forall a, b | MaximalRun(s, sep, a, b) && b == |s| ensures a == o {
      if a < o { assert false; }
    }
  }

  /** Any ordered list of exactly the maximal runs is the same list. */
  lemma {:induction false} RunsUnique(r: seq<(nat, nat)>, r': seq<(nat, nat)>)
    requires LeftToRight(r) && LeftToRight(r') && (forall x :: x in r <==> x in r')
    requires forall x :: x in r ==> x.0 < x.1
    ensures r == r'
  {
    if r' != [] { assert r'[0] in r; }
    if r != [] {
      assert r[0] in r';
      assert r'[0] in r;
      SameFirst(r, r');
      TailMembers(r, r');
      TailMembers(r', r);
      RunsUnique(r[1..], r'[1..]);
    }
  }

  lemma SameFirst(r: seq<(nat, nat)>, r': seq<(nat, nat)>)
    requires LeftToRight(r) && LeftToRight(r') && r != [] && r' != [] && r[0] in r' && r'[0] in r
    requires r[0].0 < r[0].1 && r'[0].0 < r'[0].1
    ensures r[0] == r'[0]
  {
    var i :| 0 <= i < |r'| && r'[i] == r[0];
    var j :| 0 <= j < |r| && r[j] == r'[0];
  }

  lemma TailMembers(r: seq<(nat, nat)>, r': seq<(nat, nat)>)
    requires r != [] && r' != [] && r[0] == r'[0] && LeftToRight(r) && (forall x :: x in r ==> x in r')
    requires forall x :: x in r ==> x.0 < x.1
    ensures forall x :: x in r[1..] ==> x in r'[1..]
  {
    forall x | x in r[1..] ensures x in r'[1..] {
      var i :| 0 <= i < |r| - 1 && r[1..][i] == x;
      assert r[i + 1] == x;
      assert r[0] in r && r[0].1 < x.0;
      assert x in r';
    }
  }

  /** The texts of the runs ended before n, and of all runs. */
  function EndedTexts(s: seq<byte>, sep: seq<byte>, n: nat): seq<seq<byte>>
    requires n <= |s|
  {
    if n == 0 then []
    else
      var a := OpenAt(s, sep, n - 1);
      EndedTexts(s, sep, n - 1) + if s[n - 1] in sep && a < n - 1 then [s[a..n - 1]] else []
  }

  function TokensOf(s: seq<byte>, sep: seq<byte>): seq<seq<byte>> {
    var a := OpenAt(s, sep, |s|);
    EndedTexts(s, sep, |s|) + if a < |s| then [s[a..|s|]] else []
  }

  ghost predicate TextAt(s: seq<byte>, runs: seq<(nat, nat)>, texts: seq<seq<byte>>, i: int) {
    0 <= i < |runs| && i < |texts| && runs[i].0 <= runs[i].1 <= |s| && texts[i] == s[runs[i].0..runs[i].1]
  }

  /** The texts are those of the runs, one by one. */
  ghost predicate TextsOf(s: seq<byte>, runs: seq<(nat, nat)>, texts: seq<seq<byte>>) {
    |texts| == |runs| && forall i :: 0 <= i < |runs| ==> TextAt(s, runs, texts, i)
  }

  lemma TextsSnoc(s: seq<byte>, runs: seq<(nat, nat)>, texts: seq<seq<byte>>, a: nat, b: nat)
    requires TextsOf(s, runs, texts) && a <= b <= |s|
    ensures TextsOf(s, runs + [(a, b)], texts + [s[a..b]])
  {
    forall i | 0 <= i <= |runs| ensures TextAt(s, runs + [(a, b)], texts + [s[a..b]], i) {
      assert i < |runs| ==> TextAt(s, runs, texts, i);
    }
  }

  lemma {:induction false} EndedTextsAre(s: seq<byte>, sep: seq<byte>, n: nat)
    requires n <= |s|
    ensures TextsOf(s, Ended(s, sep, n), EndedTexts(s, sep, n))
  {
    if n > 0 {
      EndedTextsAre(s, sep, n - 1);
      TextsSnoc(s, Ended(s, sep, n - 1), EndedTexts(s, sep, n - 1), OpenAt(s, sep, n - 1), n - 1);
      assert EndedTexts(s, sep, n - 1) + [] == EndedTexts(s, sep, n - 1);
    }
  }

  /** The tokens are the texts of the maximal runs, left to right, each once. */
  lemma TokensExact(s: seq<byte>, sep: seq<byte>)
    ensures exists runs :: TextsOf(s, runs, TokensOf(s, sep)) && LeftToRight(runs)
                           && forall a, b :: (a, b) in runs <==> MaximalRun(s, sep, a, b)
  {
    EndedTextsAre(s, sep, |s|);
    var a := OpenAt(s, sep, |s|);
    TextsSnoc(s, Ended(s, sep, |s|), EndedTexts(s, sep, |s|), a, |s|);
    RunsExact(s, sep);
    assert TextsOf(s, Runs(s, sep), TokensOf(s, sep)) by {
      if a == |s| {
        assert Runs(s, sep) == Ended(s, sep, |s|) && TokensOf(s, sep) == EndedTexts(s, sep, |s|);
      }
    }
  }

  /** Nothing else than the tokens fits that description. */
  lemma TokensUnique(s: seq<byte>, sep: seq<byte>, runs: seq<(nat, nat)>, texts: seq<seq<byte>>)
    requires TextsOf(s, runs, texts) && LeftToRight(runs)
    requires (forall a, b :: (a, b) in runs <==> MaximalRun(s, sep, a, b))
    ensures texts == TokensOf(s, sep)
  {
    TokensExact(s, sep);
    var runs' :| TextsOf(s, runs', TokensOf(s, sep)) && LeftToRight(runs')
                 && forall a, b :: (a, b) in runs' <==> MaximalRun(s, sep, a, b);
    forall x: (nat, nat) ensures (x in runs <==> x in runs') && (x in runs ==> x.0 < x.1) {
      assert x == (x.0, x.1);
      assert x in runs <==> MaximalRun(s, sep, x.0, x.1);
      assert x in runs' <==> MaximalRun(s, sep, x.0, x.1);
    }
    RunsUnique(runs, runs');
    forall i | 0 <= i < |texts| ensures texts[i] == TokensOf(s, sep)[i] {
      assert TextAt(s, runs, texts, i) && TextAt(s, runs', TokensOf(s, sep), i);
    }
  }

  // ----- pieces between separators -----

  function Front<T>(p: seq<T>): seq<T> requires p != [] { p[..|p| - 1] }

  function Last<T>(p: seq<T>): T requires p != [] { p[|p| - 1] }

  /** The pieces that the separators cut the first n bytes of s into; adjacent separators enclose
      an empty piece. */
  function Pieces(s: seq<byte>, sep: seq<byte>, n: nat): (p: seq<seq<byte>>)
    requires n <= |s|
    ensures p != []
  {
    if n == 0 then [[]]
    else
      var p := Pieces(s, sep, n - 1);
      if s[n - 1] in sep then p + [[]] else Front(p) + [Last(p) + [s[n - 1]]]
  }

  /** The separators among the first n bytes, in order. */
  function Separators(s: seq<byte>, sep: seq<byte>, n: nat): seq<byte>
    requires n <= |s|
  {
    if n == 0 then [] else Separators(s, sep, n - 1) + if s[n - 1] in sep then [s[n - 1]] else []
  }

  /** Pieces and separators, alternating. */
  function Weave(p: seq<seq<byte>>, d: seq<byte>): seq<byte>
    requires |p| == |d| + 1
  {
    if d == [] then p[0] else Weave(Front(p), d[..|d| - 1]) + [d[|d| - 1]] + p[|p| - 1]
  }

  lemma WeaveLast(p: seq<seq<byte>>, d: seq<byte>, c: byte)
    requires |p| == |d| + 1
    ensures Weave(p + [[]], d + [c]) == Weave(p, d) + [c]
    ensures Weave(Front(p) + [Last(p) + [c]], d) == Weave(p, d) + [c]
  {
    assert (p + [[]])[..|p|] == p && (d + [c])[..|d|] == d;
    var p' := p[..|p| - 1] + [p[|p| - 1] + [c]];
    assert p'[..|p| - 1] == p[..|p| - 1];
  }

  ghost predicate Free(x: seq<byte>, sep: seq<byte>) { forall i :: 0 <= i < |x| ==> x[i] !in sep }

  /** One more byte ends the last piece or makes it longer; either way the woven text grows by that byte. */
  lemma WeaveStep(p: seq<seq<byte>>, d: seq<byte>, q: seq<seq<byte>>, e: seq<byte>, c: byte, ends: bool)
    requires |p| == |d| + 1
    requires q == if ends then p + [[]] else Front(p) + [Last(p) + [c]]
    requires e == d + if ends then [c] else []
    ensures |q| == |e| + 1 && Weave(q, e) == Weave(p, d) + [c]
  {
    WeaveLast(p, d, c);
    ConcatNone(d);
  }

  /** Nothing is lost: putting the separators back gives s. */
  lemma {:induction false} PiecesRejoin(s: seq<byte>, sep: seq<byte>, n: nat)
    requires n <= |s|
    ensures |Pieces(s, sep, n)| == |Separators(s, sep, n)| + 1
    ensures Weave(Pieces(s, sep, n), Separators(s, sep, n)) == s[..n]
  {
    if n > 0 {
      PiecesRejoin(s, sep, n - 1);
      WeaveStep(Pieces(s, sep, n - 1), Separators(s, sep, n - 1), Pieces(s, sep, n), Separators(s, sep, n),
                s[n - 1], s[n - 1] in sep);
      assert s[..n] == s[..n - 1] + [s[n - 1]];
    }
  }

  /** No piece holds a separator. */
  lemma {:induction false} PiecesFree(s: seq<byte>, sep: seq<byte>, n: nat, i: nat)
    requires n <= |s| && i < |Pieces(s, sep, n)|
    ensures Free(Pieces(s, sep, n)[i], sep)
  {
    if n > 0 {
      var p := Pieces(s, sep, n - 1);
      if i < |p| { PiecesFree(s, sep, n - 1, i); }
    }
  }

  /** The pieces that are not empty. */
  function NonEmpty(p: seq<seq<byte>>): seq<seq<byte>> {
    if p == [] then []
    else NonEmpty(p[..|p| - 1]) + if p[|p| - 1] == [] then [] else [p[|p| - 1]]
  }

  /** One more byte closes the last piece or makes it longer. */
  lemma PiecesStep(s: seq<byte>, sep: seq<byte>, n: nat)
    requires n < |s|
    ensures var p, q := Pieces(s, sep, n), Pieces(s, sep, n + 1);
      && (s[n] in sep ==> Front(q) == p && Last(q) == [])
      && (s[n] !in sep ==> Front(q) == Front(p) && Last(q) == Last(p) + [s[n]])
  {
  }

  lemma NonEmptySnoc(p: seq<seq<byte>>)
    requires p != []
    ensures NonEmpty(p) == NonEmpty(Front(p)) + if Last(p) == [] then [] else [Last(p)]
  {
  }

  /** A slice grows by one byte, or starts again behind it. */
  lemma SliceNext(s: seq<byte>, a: nat, n: nat, a': nat)
    requires a <= n < |s| && (a' == a || a' == n + 1)
    ensures s[a'..n + 1] == if a' == n + 1 then [] else s[a..n] + [s[n]]
  {
  }

  lemma LastPieceStep(s: seq<byte>, sep: seq<byte>, n: nat)
    requires n < |s| && Last(Pieces(s, sep, n)) == s[OpenAt(s, sep, n)..n]
    ensures Last(Pieces(s, sep, n + 1)) == s[OpenAt(s, sep, n + 1)..n + 1]
  {
    PiecesStep(s, sep, n);
    SliceNext(s, OpenAt(s, sep, n), n, OpenAt(s, sep, n + 1));
  }

  /** The last piece is the open run. */
  lemma {:induction false} LastPieceIsOpen(s: seq<byte>, sep: seq<byte>, n: nat)
    requires n <= |s|
    ensures Last(Pieces(s, sep, n)) == s[OpenAt(s, sep, n)..n]
  {
    if n > 0 {
      LastPieceIsOpen(s, sep, n - 1);
      LastPieceStep(s, sep, n - 1);
    }
  }

  lemma PiecesRunStep(s: seq<byte>, sep: seq<byte>, n: nat)
    requires n < |s| && NonEmpty(Front(Pieces(s, sep, n))) == EndedTexts(s, sep, n)
    ensures NonEmpty(Front(Pieces(s, sep, n + 1))) == EndedTexts(s, sep, n + 1)
  {
    LastPieceIsOpen(s, sep, n);
    PiecesStep(s, sep, n);
    EndedStep(s, sep, n);
    KeepPiece(Pieces(s, sep, n), Pieces(s, sep, n + 1), EndedTexts(s, sep, n), EndedTexts(s, sep, n + 1),
              s[OpenAt(s, sep, n)..n], s[n] in sep);
  }

  /** The earlier pieces are the ended runs and empty pieces. */
  lemma {:induction false} PiecesAreRuns(s: seq<byte>, sep: seq<byte>, n: nat)
    requires n <= |s|
    ensures NonEmpty(Front(Pieces(s, sep, n))) == EndedTexts(s, sep, n)
  {
    if n > 0 {
      PiecesAreRuns(s, sep, n - 1);
      PiecesRunStep(s, sep, n - 1);
    }
  }

  lemma EndedStep(s: seq<byte>, sep: seq<byte>, n: nat)
    requires n < |s|
    ensures var x := s[OpenAt(s, sep, n)..n];
      EndedTexts(s, sep, n + 1) == EndedTexts(s, sep, n) + if s[n] in sep && |x| > 0 then [x] else []
  {
    assert |s[OpenAt(s, sep, n)..n]| == n - OpenAt(s, sep, n);
  }

  lemma KeepPiece(p: seq<seq<byte>>, q: seq<seq<byte>>, e: seq<seq<byte>>, e': seq<seq<byte>>, x: seq<byte>,
                  closed: bool)
    requires p != [] && q != [] && NonEmpty(Front(p)) == e && Last(p) == x
    requires Front(q) == (if closed then p else Front(p)) && e' == e + if closed && |x| > 0 then [x] else []
    ensures NonEmpty(Front(q)) == e'
  {
    NonEmptySnoc(p);
  }

  /** Dropping the empty pieces leaves the maximal runs. */
  lemma NonEmptyPiecesAreTokens(s: seq<byte>, sep: seq<byte>)
    ensures NonEmpty(Pieces(s, sep, |s|)) == TokensOf(s, sep)
  {
    PiecesAreRuns(s, sep, |s|);
    LastPieceIsOpen(s, sep, |s|);
    NonEmptySnoc(Pieces(s, sep, |s|));
    assert |s[OpenAt(s, sep, |s|)..|s|]| == |s| - OpenAt(s, sep, |s|);
  }

  /** The separators of s, and nothing else, cut it into these pieces. */
  ghost predicate Cut(s: seq<byte>, sep: seq<byte>, pieces: seq<seq<byte>>) {
    && |pieces| == |Separators(s, sep, |s|)| + 1
    && Weave(pieces, Separators(s, sep, |s|)) == s
    && (forall i :: 0 <= i < |pieces| ==> Free(pieces[i], sep))
  }

  lemma PiecesCut(s: seq<byte>, sep: seq<byte>)
    ensures Cut(s, sep, Pieces(s, sep, |s|))
  {
    PiecesRejoin(s, sep, |s|);
    assert s[..|s|] == s;
    forall i | 0 <= i < |Pieces(s, sep, |s|)| ensures Free(Pieces(s, sep, |s|)[i], sep) {
      PiecesFree(s, sep, |s|, i);
    }
  }

  /** The separators are the bytes of s that are in sep, each as often as it occurs. */
  lemma {:induction false} SeparatorsAre(s: seq<byte>, sep: seq<byte>, n: nat, c: byte)
    requires n <= |s|
    ensures multiset(Separators(s, sep, n))[c] == if c in sep then multiset(s[..n])[c] else 0
  {
    if n == 0 {
      assert s[..0] == [];
    } else {
      SeparatorsAre(s, sep, n - 1, c);
      assert s[..n] == s[..n - 1] + [s[n - 1]];
      CountStep(s[..n - 1], s[n - 1], s[..n], c, true);
      CountStep(Separators(s, sep, n - 1), s[n - 1], Separators(s, sep, n), c, s[n - 1] in sep);
    }
  }

  lemma CountStep(l: seq<byte>, x: byte, l': seq<byte>, c: byte, joins: bool)
    requires l' == l + if joins then [x] else []
    ensures multiset(l')[c] == multiset(l)[c] + if joins && x == c then 1 else 0
  {
    if !joins { ConcatNone(l); }
  }

  /** What split returns: an empty string has no pieces at all. */
  function Parts(s: seq<byte>, sep: seq<byte>, removeEmpty: bool): seq<seq<byte>> {
    if s == [] then [] else Kept(Pieces(s, sep, |s|), removeEmpty)
  }

  function Kept(p: seq<seq<byte>>, removeEmpty: bool): seq<seq<byte>> {
    if removeEmpty then NonEmpty(p) else p
  }

  lemma KeptSnoc(p: seq<seq<byte>>, removeEmpty: bool)
    requires p != []
    ensures Kept(p, removeEmpty) == Kept(Front(p), removeEmpty) + if removeEmpty && Last(p) == [] then [] else [Last(p)]
  {
    if !removeEmpty { assert p == Front(p) + [Last(p)]; }
  }

  /** On every input the splitter, told to drop empty pieces, finds the maximal runs. */
  lemma SplitFindsTokens(s: seq<byte>, sep: seq<byte>)
    ensures Parts(s, sep, true) == TokensOf(s, sep)
  {
    NonEmptyPiecesAreTokens(s, sep);
  }

  /** Without separators split returns the whole text, where wba_strntok returns no array at all. */
  lemma {:induction false} NothingToSplit(s: seq<byte>, n: nat)
    requires n <= |s|
    ensures Pieces(s, [], n) == [s[..n]]
  {
    if n > 0 {
      NothingToSplit(s, n - 1);
      assert s[..n - 1] + [s[n - 1]] == s[..n];
      assert Front([s[..n - 1]]) == [];
    }
  }

  method Split(str: seq<byte>, delims: seq<byte>, removeEmpty: bool) returns (result: seq<seq<byte>>)
    ensures result == Parts(str, delims, removeEmpty)
    ensures removeEmpty ==> result == TokensOf(str, delims)
    ensures str == [] ==> result == []
    ensures !removeEmpty && str != [] ==> Cut(str, delims, result)
  {
    result := [];
    if str == [] { return; }
    var sub: seq<byte> := [];
    var i := 0;
    while i < |str|
      invariant 0 <= i <= |str|
      invariant sub == Last(Pieces(str, delims, i))
      invariant result == Kept(Front(Pieces(str, delims, i)), removeEmpty)
    {
      PiecesStep(str, delims, i);
      KeptSnoc(Pieces(str, delims, i), removeEmpty);
      if str[i] !in delims {
        sub := sub + [str[i]];
      } else if !(removeEmpty && sub == []) {
        result := result + [sub];
        sub := [];
      }
      i := i + 1;
    }
    KeptSnoc(Pieces(str, delims, |str|), removeEmpty);
    if !(removeEmpty && sub == []) {
      result := result + [sub];
    }
    SplitFindsTokens(str, delims);
    PiecesCut(str, delims);
  }
}
