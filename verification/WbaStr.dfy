/** The growable string of wba_str.c and its tokeniser. */
module WbaStr {
  import opened Options
  import opened Powers
  import opened Tokens

  const MAX_RESERVE: nat := 1024 * 1024

  // ----- what the operations compute -----

  /** A string as a value; `copied` adds up the old capacities of all reallocations so far. */
  datatype Str = Str(text: seq<byte>, cap: nat, copied: nat)

  predicate Fits(s: Str) { |s.text| <= s.cap }

  function Reserved(s: Str, need: nat): Str {
    if s.cap >= need then s
    else Str(s.text, if need < MAX_RESERVE then need * 2 else need + MAX_RESERVE, s.copied + s.cap)
  }

  function Appended(s: Str, x: seq<byte>): Str {
    if x == [] then s else Reserved(s, |s.text| + |x|).(text := s.text + x)
  }

  /** wba_strncpy: copying nothing changes nothing. */
  function Replaced(s: Str, x: seq<byte>): Str {
    if x == [] then s else Reserved(s, |x|).(text := x)
  }

  function AppendAll(s: Str, xs: seq<seq<byte>>): Str {
    if xs == [] then s else Appended(AppendAll(s, xs[..|xs| - 1]), xs[|xs| - 1])
  }

  function Flat(xs: seq<seq<byte>>): seq<byte> {
    if xs == [] then [] else Flat(xs[..|xs| - 1]) + xs[|xs| - 1]
  }

  /** The text is the concatenation, and it fits. */
  lemma {:induction false} AppendsConcatenate(s: Str, xs: seq<seq<byte>>)
    requires Fits(s)
    ensures AppendAll(s, xs).text == s.text + Flat(xs) && Fits(AppendAll(s, xs))
    ensures AppendAll(s, xs).cap >= s.cap
  {
    if xs != [] {
      var n := |xs| - 1;
      AppendsConcatenate(s, xs[..n]);
      assert s.text + (Flat(xs[..n]) + xs[n]) == (s.text + Flat(xs[..n])) + xs[n];
    } else {
      assert s.text + Flat(xs) == s.text;
    }
  }

  /** Up to 2 MiB the bytes copied by all reallocations are at most twice the final length, however
      the text was cut into appends and whatever capacity the string started with. */
  lemma {:induction false} AppendsAmortised(s: Str, xs: seq<seq<byte>>)
    requires Fits(s) && s.copied == 0 && |AppendAll(s, xs).text| <= 2 * MAX_RESERVE
    ensures AppendAll(s, xs).copied <= 2 * |AppendAll(s, xs).text|
    ensures AppendAll(s, xs).cap <= 2 * MAX_RESERVE ==> AppendAll(s, xs).copied <= AppendAll(s, xs).cap
  {
    if xs != [] {
      AppendsConcatenate(s, xs[..|xs| - 1]);
      AppendsAmortised(s, xs[..|xs| - 1]);
    }
  }

  /** Without any bound on the length the copying is at most quadratic, with 2 MiB as divisor. */
  lemma {:induction false} AppendsBounded(s: Str, xs: seq<seq<byte>>)
    requires Fits(s) && s.copied == 0
    ensures var r := AppendAll(s, xs); 2 * MAX_RESERVE * r.copied <= r.cap * r.cap + 2 * MAX_RESERVE * r.cap
  {
    if xs != [] {
      var r, x := AppendAll(s, xs[..|xs| - 1]), xs[|xs| - 1];
      AppendsBounded(s, xs[..|xs| - 1]);
      var need := |r.text| + |x|;
      if x != [] && r.cap < need {
        GrowthStep(r.cap, r.copied, Reserved(r, need).cap, MAX_RESERVE);
      }
    }
  }

  lemma GrowthStep(cap: nat, copied: nat, cap': nat, m: nat)
    requires 2 * m * copied <= cap * cap + 2 * m * cap
    requires cap' >= 2 * cap || cap' >= cap + m
    ensures 2 * m * (copied + cap) <= cap' * cap' + 2 * m * cap'
  {
    var base := if cap' >= 2 * cap then 2 * cap else cap + m;
    Monotone(base, cap', base);
    Monotone(base, cap', cap');
    Monotone(base, cap', 2 * m);
    Expand(cap, m);
    assert 2 * m * (copied + cap) == 2 * m * copied + 2 * m * cap;
  }

  lemma Expand(cap: nat, m: nat)
    ensures (2 * cap) * (2 * cap) == 4 * (cap * cap) && 2 * m * (2 * cap) == 2 * (2 * m * cap)
    ensures (cap + m) * (cap + m) == cap * cap + 2 * m * cap + m * m
    ensures 2 * m * (cap + m) == 2 * m * cap + 2 * (m * m) && m * m >= 0 && cap * cap >= 0
  {
  }

  lemma Monotone(a: nat, b: nat, k: nat)
    requires a <= b
    ensures k * a <= k * b && a * k <= b * k
  {
  }

  /** A text of n zero bytes. */
  function Zeros(n: nat): (z: seq<byte>)
    ensures |z| == n && forall i :: 0 <= i < n ==> z[i] == 0
  {
    seq(n, _ => 0)
  }

  /** The capacity after room was made for `need` bytes: enough already, or doubled below 1 MiB, or
      1 MiB more. */
  ghost predicate RoomMade(cap: nat, need: nat, cap': nat) {
    cap' == if need <= cap then cap else if need < 1_048_576 then 2 * need else need + 1_048_576
  }

  lemma AppendNext(s: Str, xs: seq<seq<byte>>, x: seq<byte>)
    ensures AppendAll(s, xs + [x]) == Appended(AppendAll(s, xs), x)
  {
    assert (xs + [x])[..|xs|] == xs;
  }

  /** One more append that does not fit: the whole capacity is copied. */
  lemma GrowOnce(s: Str, xs: seq<seq<byte>>, m: nat) returns (ys: seq<seq<byte>>)
    requires |AppendAll(s, xs).text| < m && AppendAll(s, xs).cap < m
    ensures var r, r' := AppendAll(s, xs), AppendAll(s, ys);
      |r'.text| == m && r'.copied == r.copied + r.cap && r'.cap == (if m < MAX_RESERVE then m * 2 else m + MAX_RESERVE)
  {
    var x := Zeros(m - |AppendAll(s, xs).text|);
    ys := xs + [x];
    AppendNext(s, xs, x);
  }

  /** A first append that is one byte too long for the capacity asked for. */
  lemma StartAt(m: nat) returns (s: Str, xs: seq<seq<byte>>)
    requires m > 0
    ensures s == Str([], m - 1, 0)
    ensures var r := AppendAll(s, xs);
      |r.text| == m && r.copied == m - 1 && r.cap == (if m < MAX_RESERVE then m * 2 else m + MAX_RESERVE)
  {
    s := Str([], m - 1, 0);
    xs := GrowOnce(s, [], m);
  }

  /** Appends that just miss the doubled capacity each time copy nearly twice the length. */
  lemma {:induction false} NearlyTwice(m: nat, b: nat) returns (s: Str, xs: seq<seq<byte>>)
    requires 0 < m <= Pow2(b) && m <= 2 * MAX_RESERVE
    ensures Fits(s) && s.copied == 0
    ensures var r := AppendAll(s, xs);
      |r.text| == m && r.copied >= 2 * m - 4 * b - 4 && r.cap == (if m < MAX_RESERVE then m * 2 else m + MAX_RESERVE)
    decreases b
  {
    if m <= 2 {
      s, xs := StartAt(m);
    } else {
      s, xs := NearlyTwice((m - 1) / 2, b - 1);
      xs := GrowOnce(s, xs, m);
    }
  }

  /** Just above 2 MiB the factor two is lost for good: every final length from 2 MiB + 92 on is
      reached by appends that copy more than twice as much. */
  lemma AmortisationEnds(n: nat) returns (s: Str, xs: seq<seq<byte>>)
    requires n >= 2 * MAX_RESERVE + 92
    ensures Fits(s) && s.copied == 0 && |AppendAll(s, xs).text| == n && AppendAll(s, xs).copied > 2 * n
  {
    var p, p2 := n - 1 - MAX_RESERVE, n - 2 - 2 * MAX_RESERVE;
    Pow2Of21();
    if p <= 2 * MAX_RESERVE {
      s, xs := NearlyTwice(p, 21);
    } else {
      if p2 <= 2 * MAX_RESERVE {
        s, xs := NearlyTwice(p2, 21);
      } else {
        s, xs := StartAt(p2);
      }
      xs := GrowOnce(s, xs, p);
    }
    xs := GrowOnce(s, xs, n);
  }

  // ----- the string object -----

  class WStr {
    var buf: array<byte>
    var len: nat
    var cap: nat
    ghost var copied: nat

    /** The text fits the buffer and is followed by the terminator. */
    ghost predicate Valid()
      reads this, buf
    {
      buf.Length == cap + 1 && len <= cap && buf[len] == 0
    }

    ghost function View(): Str
      requires Valid()
      reads this, buf
    {
      Str(buf[..len], cap, copied)
    }

    constructor NewLen(init: Option<seq<byte>>, initlen: nat)
      requires init.Some? ==> |init.value| == initlen
      ensures Valid() && fresh(buf) && View() == Str(if init.Some? then init.value else Zeros(initlen), initlen, 0)
    {
      var b := new byte[initlen + 1](i requires 0 <= i => if init.Some? && i < initlen then init.value[i] else 0);
      buf, len, cap, copied := b, initlen, initlen, 0;
      new;
      assert buf[..len] == if init.Some? then init.value else Zeros(initlen);
    }

    constructor New(c: nat)
      ensures Valid() && fresh(buf) && View() == Str([], c, 0)
    {
      buf := new byte[c + 1](_ => 0);
      len, cap, copied := 0, c, 0;
    }

    method Clear()
      requires Valid()
      modifies this, buf
      ensures Valid() && buf == old(buf) && View() == old(View()).(text := [])
    {
      len := 0;
      buf[0] := 0;
    }

    /** wba_strgrow: realloc keeps the bytes it had; the others are arbitrary. */
    method Grow(c: nat)
      requires Valid()
      modifies this
      ensures Valid() && (buf == old(buf) || fresh(buf))
      ensures View() == if c <= old(cap) then old(View()) else Str(old(View()).text, c, old(copied) + old(cap))
    {
      if c <= cap { return; }
      var b := new byte[c + 1];
      forall i | 0 <= i < buf.Length { b[i] := buf[i]; }
      assert b[..len] == buf[..len];
      copied := copied + cap;
      buf, cap := b, c;
    }

    method Reserve(c: nat)
      requires Valid()
      modifies this
      ensures Valid() && (buf == old(buf) || fresh(buf)) && View() == Reserved(old(View()), c) && cap >= c
    {
      if cap >= c { return; }
      if c < MAX_RESERVE {
        Grow(c * 2);
      } else {
        Grow(c + MAX_RESERVE);
      }
    }

    /** wba_strncpy; a null source changes nothing. */
    method NCpy(str: Option<seq<byte>>)
      requires Valid()
      modifies this, buf
      ensures Valid() && (buf == old(buf) || fresh(buf))
      ensures View() == if str.None? then old(View()) else Replaced(old(View()), str.value)
      ensures str.None? || str.value == [] ==> View() == old(View())
      ensures str.Some? && str.value != [] ==> View().text == str.value && RoomMade(old(cap), |str.value|, cap)
    {
      if str.None? || |str.value| == 0 { return; }
      var x := str.value;
      Reserve(|x|);
      forall i | 0 <= i < |x| { buf[i] := x[i]; }
      len := |x|;
      buf[len] := 0;
      assert buf[..len] == x;
    }

    /** wba_strncat */
    method NCat(str: Option<seq<byte>>)
      requires Valid()
      modifies this, buf
      ensures Valid() && (buf == old(buf) || fresh(buf))
      ensures View() == if str.None? then old(View()) else Appended(old(View()), str.value)
      ensures str.None? || str.value == [] ==> View() == old(View())
      ensures str.Some? && str.value != [] ==>
        View().text == old(View()).text + str.value && RoomMade(old(cap), old(len) + |str.value|, cap)
    {
      if str.None? || |str.value| == 0 { return; }
      var x := str.value;
      Reserve(len + |x|);
      ghost var t := buf[..len];
      forall i | 0 <= i < |x| { buf[len + i] := x[i]; }
      len := len + |x|;
      buf[len] := 0;
      assert buf[..len] == t + x;
    }
  }

  // ----- the tokeniser -----

  /** A token string: wba_strnew with the exact size, then wba_strncpy, which need not grow. */
  method MakeToken(x: seq<byte>) returns (ws: WStr)
    ensures fresh(ws) && fresh(ws.buf) && ws.Valid() && ws.View() == Str(x, |x|, 0)
  {
    ws := new WStr.New(|x|);
    ws.NCpy(Some(x));
  }

  method IsSeparator(c: byte, sep: seq<byte>) returns (hit: bool)
    ensures hit <==> c in sep
  {
    hit := false;
    var n := 0;
    while n < |sep|
      invariant 0 <= n <= |sep| && !hit && c !in sep[..n]
    {
      if c == sep[n] {
        return true;
      }
      n := n + 1;
    }
  }

  ghost predicate SlotOk(ws: WStr, text: seq<byte>)
    reads ws, ws.buf
  {
    ws.Valid() && ws.View() == Str(text, |text|, 0)
  }

  /** The filled slots hold valid string objects with the given texts, all of them different and
      with buffers of their own; `owned` has these objects and buffers. */
  ghost predicate Filled(wss: array<WStr?>, texts: seq<seq<byte>>, owned: set<object>)
    reads wss, set i | 0 <= i < wss.Length :: wss[i], set i | 0 <= i < wss.Length && wss[i] != null :: wss[i].buf
  {
    && |texts| <= wss.Length
    && (forall i :: 0 <= i < |texts| ==> wss[i] != null && SlotOk(wss[i], texts[i]))
    && (forall i :: 0 <= i < |texts| ==> wss[i] in owned && wss[i].buf in owned)
    && (forall i, j :: 0 <= i < j < |texts| ==> wss[i] != wss[j] && wss[i].buf != wss[j].buf)
  }

  /** realloc of the slot array */
  method MoreSlots(wss: array<WStr?>, slots: nat, ghost texts: seq<seq<byte>>, ghost owned: set<object>)
    returns (tmp: array<WStr?>)
    requires wss.Length <= slots && Filled(wss, texts, owned)
    ensures fresh(tmp) && tmp.Length == slots && Filled(tmp, texts, owned)
  {
    tmp := new WStr?[slots](_ => null);
    forall i | 0 <= i < wss.Length { tmp[i] := wss[i]; }
  }

  /** Doubles the slots when only one is left. */
  method RoomForToken(wss0: array<WStr?>, cnt: nat, ghost texts: seq<seq<byte>>, ghost owned: set<object>)
    returns (wss: array<WStr?>)
    requires Filled(wss0, texts, owned) && cnt == |texts| < wss0.Length
    ensures (wss == wss0 || fresh(wss)) && Filled(wss, texts, owned) && cnt + 1 < wss.Length
    ensures wss.Length == wss0.Length || wss.Length <= 2 * (cnt + 1)
  {
    wss := wss0;
    var slots := wss0.Length;
    if cnt >= slots - 1 {
      slots := slots * 2;
      wss := MoreSlots(wss, slots, texts, owned);
    }
  }

  /** Stores one token in the next slot. */
  method StoreToken(wss: array<WStr?>, x: seq<byte>, cnt: nat, ghost texts: seq<seq<byte>>, ghost owned0: set<object>)
    returns (ghost owned: set<object>)
    requires Filled(wss, texts, owned0) && cnt == |texts| < wss.Length
    modifies wss
    ensures Filled(wss, texts + [x], owned) && fresh(owned - owned0)
  {
    var ws := MakeToken(x);
    ghost var objs := wss[..cnt];
    assert forall i :: 0 <= i < cnt ==> objs[i] != null && objs[i] != ws && objs[i].buf != ws.buf;
    assert forall i :: 0 <= i < cnt ==> SlotOk(objs[i], texts[i]);
    wss[cnt] := ws;
    owned := owned0 + {ws, ws.buf};
    assert wss[..cnt] == objs;
    forall i | 0 <= i < cnt ensures wss[i] == objs[i] {}
  }

  /** Stores a token that was completed, if any. */
  method StoreAny(token: Option<seq<byte>>, wss0: array<WStr?>, cnt0: nat, ghost texts: seq<seq<byte>>,
                  ghost texts': seq<seq<byte>>, ghost owned0: set<object>)
    returns (wss: array<WStr?>, cnt: nat, ghost owned: set<object>)
    requires Filled(wss0, texts, owned0) && cnt0 == |texts| < wss0.Length
    requires texts' == if token.Some? then texts + [token.value] else texts
    modifies wss0
    ensures (wss == wss0 || fresh(wss)) && Filled(wss, texts', owned) && fresh(owned - owned0)
    ensures cnt == |texts'| < wss.Length && (wss.Length == wss0.Length || wss.Length <= 2 * cnt) && cnt0 <= cnt
  {
    wss, cnt, owned := wss0, cnt0, owned0;
    if token.Some? {
      wss := RoomForToken(wss, cnt, texts, owned);
      owned := StoreToken(wss, token.value, cnt, texts, owned);
      cnt := cnt + 1;
    }
  }

  /** One round of wba_strntok's loop up to the point where a token is complete. */
  method NextByte(s: seq<byte>, sep: seq<byte>, m: nat, start0: Option<nat>)
    returns (start: Option<nat>, token: Option<seq<byte>>)
    requires m < |s| && start0 == OpenStart(s, sep, m)
    ensures start == OpenStart(s, sep, m + 1)
    ensures Found(s, sep, m + 1) == if token.Some? then Found(s, sep, m) + [token.value] else Found(s, sep, m)
  {
    start, token := start0, None;
    var end: Option<nat> := None;
    var hit := IsSeparator(s[m], sep);
    if !hit {
      start := if start.None? then Some(m) else start;
    } else {
      end := if start.Some? then Some(m) else end;
    }
    if start.Some? && end.None? && m == |s| - 1 {
      end := Some(m + 1);
    }
    FoundStep(s, sep, m);
    if start.Some? && end.Some? {
      token := Some(s[start.value..end.value]);
      start := None;
    }
  }

  /** One round of the loop. */
  method Advance(s: seq<byte>, sep: seq<byte>, m: nat, start0: Option<nat>, wss0: array<WStr?>, cnt0: nat,
                 ghost texts0: seq<seq<byte>>, ghost owned0: set<object>)
    returns (start: Option<nat>, wss: array<WStr?>, cnt: nat, ghost texts: seq<seq<byte>>, ghost owned: set<object>)
    requires m < |s| && start0 == OpenStart(s, sep, m) && texts0 == Found(s, sep, m)
    requires Filled(wss0, texts0, owned0) && cnt0 == |texts0| < wss0.Length
    modifies wss0
    ensures start == OpenStart(s, sep, m + 1) && texts == Found(s, sep, m + 1)
    ensures (wss == wss0 || fresh(wss)) && Filled(wss, texts, owned) && fresh(owned - owned0)
    ensures cnt == |texts| < wss.Length && (wss.Length == wss0.Length || wss.Length <= 2 * cnt) && cnt0 <= cnt
  {
    var token;
    start, token := NextByte(s, sep, m, start0);
    texts := Found(s, sep, m + 1);
    wss, cnt, owned := StoreAny(token, wss0, cnt0, texts0, texts, owned0);
  }

  /** The loop of wba_strntok. */
  method Tokenise(s: seq<byte>, sep: seq<byte>) returns (wss: array<WStr?>, cnt: nat, ghost owned: set<object>)
    ensures fresh(wss) && fresh(owned) && Filled(wss, TokensOf(s, sep), owned) && cnt == |TokensOf(s, sep)|
    ensures cnt < wss.Length && (wss.Length <= 5 || wss.Length <= 2 * cnt)
  {
    wss, cnt, owned := new WStr?[5](_ => null), 0, {};
    var start: Option<nat> := None;
    ghost var texts: seq<seq<byte>> := [];
    FoundStart(s, sep);
    var m := 0;
    while m < |s|
      invariant 0 <= m <= |s| && start == OpenStart(s, sep, m) && texts == Found(s, sep, m)
      invariant fresh(wss) && fresh(owned) && Filled(wss, texts, owned)
      invariant cnt == |texts| < wss.Length && (wss.Length <= 5 || wss.Length <= 2 * cnt)
    {
      start, wss, cnt, texts, owned := Advance(s, sep, m, start, wss, cnt, texts, owned);
      m := m + 1;
    }
  }

  /** wba_strntok: null without arguments or separators, else the maximal runs, in order, each in a
      new string object of its own, in an array that is never full. */
  method NTok(str: Option<seq<byte>>, sep: Option<seq<byte>>)
    returns (r: Option<array<WStr?>>, cnt: nat, ghost owned: set<object>)
    ensures r.Some? <==> str.Some? && sep.Some? && sep.value != []
    ensures r.None? ==> cnt == 0
    ensures r.Some? ==> Filled(r.value, TokensOf(str.value, sep.value), owned) && fresh(owned)
    ensures r.Some? ==> cnt == |TokensOf(str.value, sep.value)| < r.value.Length
    ensures r.Some? ==> fresh(r.value) && (r.value.Length <= 5 || r.value.Length <= 2 * cnt)
  {
    cnt, owned := 0, {};
    if str.None? || sep.None? || |sep.value| == 0 {
      return None, 0, {};
    }
    var wss;
    wss, cnt, owned := Tokenise(str.value, sep.value);
    r := Some(wss);
  }

  lemma FoundStart(s: seq<byte>, sep: seq<byte>)
    ensures Found(s, sep, 0) == [] && OpenStart(s, sep, 0) == None
  {
  }

  /** The tokens stored before byte m is read; at the end of s the open run is stored as well. */
  ghost function Found(s: seq<byte>, sep: seq<byte>, m: nat): seq<seq<byte>>
    requires m <= |s|
  {
    if m == |s| then TokensOf(s, sep) else EndedTexts(s, sep, m)
  }

  /** The value of `start` before byte m is read. */
  ghost function OpenStart(s: seq<byte>, sep: seq<byte>, m: nat): Option<nat>
    requires m <= |s|
  {
    if m < |s| && OpenAt(s, sep, m) < m then Some(OpenAt(s, sep, m)) else None
  }

  lemma FoundStep(s: seq<byte>, sep: seq<byte>, m: nat)
    requires m < |s|
    ensures s[m] in sep ==>
      && OpenStart(s, sep, m + 1) == None
      && var o := OpenStart(s, sep, m);
        Found(s, sep, m + 1) == Found(s, sep, m) + if o.Some? then [s[o.value..m]] else []
    ensures s[m] !in sep ==>
      var a := if OpenStart(s, sep, m).Some? then OpenStart(s, sep, m).value else m;
      && (m + 1 < |s| ==> OpenStart(s, sep, m + 1) == Some(a) && Found(s, sep, m + 1) == Found(s, sep, m))
      && (m + 1 == |s| ==> OpenStart(s, sep, m + 1) == None && Found(s, sep, m + 1) == Found(s, sep, m) + [s[a..m + 1]])
  {
    assert EndedTexts(s, sep, m) + [] == EndedTexts(s, sep, m);
    assert EndedTexts(s, sep, m + 1) + [] == EndedTexts(s, sep, m + 1);
  }
}
