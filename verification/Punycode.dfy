/**
 Punycode: the decoder of section 6.2 of RFC 3492, the bias adaptation of
 section 6.1, and the bookkeeping that relates them to an encoder that inserts
 code points in increasing order of value and position.
 */
module Punycode {
  import opened Bytes

  // ---------- digits and thresholds (section 5 of RFC 3492) ----------

  /** The value of a digit: a to z and A to Z are 0 to 25, 0 to 9 are 26 to 35. */
  function DigitValue(c: byte): Option<nat> {
    if 0x61 <= c <= 0x7A then Some(c - 0x61)
    else if 0x41 <= c <= 0x5A then Some(c - 0x41)
    else if 0x30 <= c <= 0x39 then Some(c - 0x30 + 26)
    else None
  }

  /** alphabet[q]. */
  function Alphabet(q: nat): (c: byte)
    requires q < 36
    ensures DigitValue(c) == Some(q)
    ensures c != 0x2D
  {
    if q < 26 then 0x61 + q else 0x30 + (q - 26)
  }

  function Threshold(k: nat, bias: nat): (t: nat)
    ensures 1 <= t <= 26
  {
    if k <= bias then 1 else if k - bias >= 26 then 26 else k - bias
  }

  /** Section 6.1: the bias after a delta. */
  function Adapt(delta: nat, points: nat, first: bool): nat
    requires points >= 1
  {
    var d := if first then delta / 700 else delta / 2;
    DivBelow(d, points);
    AdaptLoop(d + d / points, 0)
  }

  function AdaptLoop(d: nat, k: nat): nat
    decreases d
  {
    if d > 455 then AdaptLoop(d / 35, k + 36) else k + 36 * d / (d + 38)
  }

  /** The digit written for q under threshold t, and what is left of q. */
  function Low(q: nat, t: nat): (r: nat)
    requires 1 <= t <= 26 && t <= q
    ensures t <= r < 36
  {
    ModBelow(q - t, 36 - t);
    t + (q - t) % (36 - t)
  }

  function High(q: nat, t: nat): (r: nat)
    requires 1 <= t <= 26 && t <= q
    ensures r < q
  {
    DivBelow(q - t, 36 - t);
    (q - t) / (36 - t)
  }

  lemma {:induction false} ModBelow(a: nat, y: nat)
    requires y > 0
    ensures 0 <= a % y < y
  {
  }

  lemma {:induction false} DivBelow(a: nat, y: nat)
    requires y > 0
    ensures 0 <= a / y <= a
  {
    TimesAtLeast(a / y, y);
  }

  lemma {:induction false} TimesAtLeast(b: nat, y: nat)
    requires y > 0
    ensures b * y >= b
  {
    assert b * y == b + b * (y - 1);
  }

  /** delta as a generalized variable-length integer, from position k on. */
  function Digits(q: nat, k: nat, bias: nat): seq<byte>
    decreases q
  {
    var t := Threshold(k, bias);
    if q < t then [Alphabet(q)] else [Alphabet(Low(q, t))] + Digits(High(q, t), k + 36, bias)
  }

  // ---------- the decoder of section 6.2 ----------

  datatype State = State(n: nat, i: nat, bias: nat, output: seq<nat>)

  function Initial(basic: seq<nat>): State { State(128, 0, 72, basic) }

  /** One variable-length integer added to i with weight w. */
  function ReadVar(s: seq<byte>, k: nat, w: nat, bias: nat, i: nat): (r: Option<(nat, seq<byte>)>)
    ensures r.Some? ==> |r.value.1| < |s|
  {
    if s == [] || DigitValue(s[0]).None? then None
    else
      var d := DigitValue(s[0]).value;
      var t := Threshold(k, bias);
      if d < t then Some((i + d * w, s[1..])) else ReadVar(s[1..], k + 36, w * (36 - t), bias, i + d * w)
  }

  /** Inserts one code point, i having been read. */
  function Insert(st: State, i: nat): State {
    var len := |st.output| + 1;
    ModBelow(i, len);
    DivBelow(i, len);
    var at := i % len;
    State(st.n + i / len, at + 1, Adapt(if i >= st.i then i - st.i else 0, len, st.i == 0),
          st.output[..at] + [st.n + i / len] + st.output[at..])
  }

  function Run(st: State, s: seq<byte>): Option<State>
    decreases |s|
  {
    if s == [] then Some(st)
    else
      match ReadVar(s, 36, 1, st.bias, st.i)
      case None => None
      case Some((i, rest)) => Run(Insert(st, i), rest)
  }

  /** The part before the last '-', and the part after it; all of s is the
      second part when there is no '-'. */
  function LastDelimiter(s: seq<byte>): (r: Option<nat>)
    ensures r.Some? ==> r.value < |s| && s[r.value] == 0x2D
  {
    if s == [] then None
    else if s[|s| - 1] == 0x2D then Some(|s| - 1)
    else LastDelimiter(s[..|s| - 1])
  }

  /** Section 6.2, over unbounded integers.  The last delimiter is only taken as
      one behind at least one basic code point. */
  function PunyDecode(s: seq<byte>): Option<seq<nat>> {
    var (basic, digits) := match LastDelimiter(s)
                           case None => ([], s)
                           case Some(b) => if b == 0 then ([], s) else (s[..b], s[b + 1..]);
    if exists i :: 0 <= i < |basic| && basic[i] >= 0x80 then None
    else match Run(Initial(basic), digits) case None => None case Some(st) => Some(st.output)
  }

  // ---------- reading back one integer ----------

  /** Reading back a variable-length integer adds its value. */
  lemma {:induction false} ReadDigits(q: nat, k: nat, w: nat, bias: nat, i: nat, rest: seq<byte>)
    ensures ReadVar(Digits(q, k, bias) + rest, k, w, bias, i) == Some((i + q * w, rest))
    decreases q
  {
    hide Low, High, Alphabet, DigitValue;
    var t := Threshold(k, bias);
    var s := Digits(q, k, bias) + rest;
    if q < t {
      assert s[0] == Alphabet(q) && s[1..] == rest;
    } else {
      var y := 36 - t;
      var d, q' := Low(q, t), High(q, t);
      assert s[0] == Alphabet(d) && s[1..] == Digits(q', k + 36, bias) + rest;
      ReadDigits(q', k + 36, w * y, bias, i + d * w, rest);
      Weigh(q, t, w);
    }
  }

  lemma {:induction false} Weigh(q: nat, t: nat, w: nat)
    requires 1 <= t <= 26 && q >= t
    ensures Low(q, t) * w + High(q, t) * (w * (36 - t)) == q * w
  {
    var y := 36 - t;
    var a, b := High(q, t), Low(q, t) - t;
    assert q == t + b + a * y by { assert q - t == (q - t) / y * y + (q - t) % y; }
    Regroup(t + b, a, w, y);
  }

  lemma {:induction false} Regroup(d: nat, a: nat, w: nat, y: nat)
    ensures d * w + a * (w * y) == (d + a * y) * w
  {
  }

  lemma {:induction false} ReadVarAppend(s: seq<byte>, b: seq<byte>, k: nat, w: nat, bias: nat, i: nat)
    requires ReadVar(s, k, w, bias, i).Some?
    ensures ReadVar(s + b, k, w, bias, i) == Some((ReadVar(s, k, w, bias, i).value.0, ReadVar(s, k, w, bias, i).value.1 + b))
    decreases |s|
  {
    hide Threshold, DigitValue;
    var t := Threshold(k, bias);
    var d := DigitValue(s[0]).value;
    assert (s + b)[0] == s[0] && (s + b)[1..] == s[1..] + b;
    if d >= t { ReadVarAppend(s[1..], b, k + 36, w * (36 - t), bias, i + d * w); }
  }

  lemma {:induction false} RunAppend(st: State, a: seq<byte>, b: seq<byte>)
    requires Run(st, a).Some?
    ensures Run(st, a + b) == Run(Run(st, a).value, b)
    decreases |a|
  {
    if a == [] {
      assert a + b == b;
    } else {
      ReadVarAppend(a, b, 36, 1, st.bias, st.i);
      var (i, rest) := ReadVar(a, 36, 1, st.bias, st.i).value;
      RunAppend(Insert(st, i), rest, b);
    }
  }

  /** One more delta moves the decoder by one insertion. */
  lemma {:induction false} RunOneMore(st0: State, a: seq<byte>, delta: nat)
    requires Run(st0, a).Some?
    ensures var st := Run(st0, a).value; Run(st0, a + Digits(delta, 36, st.bias)) == Some(Insert(st, st.i + delta))
  {
    var st := Run(st0, a).value;
    var d := Digits(delta, 36, st.bias);
    RunAppend(st0, a, d);
    ReadDigits(delta, 36, 1, st.bias, st.i, []);
    assert d + [] == d;
  }

  // ---------- which code points are out, and where the next one goes ----------

  /** The code points of cps that come before (n, j) in order of value, then position. */
  function Kept(cps: seq<nat>, n: nat, j: nat): (r: seq<nat>)
    ensures |r| <= |cps|
  {
    if cps == [] then []
    else
      var e := |cps| - 1;
      Kept(cps[..e], n, j) + (if cps[e] < n || (cps[e] == n && e < j) then [cps[e]] else [])
  }

  /** The last position before (n, j), in that order, that holds no ASCII. */
  function Before(cps: seq<nat>, n: nat, j: nat): (r: Option<nat>)
    ensures r.Some? ==> r.value < |cps| && cps[r.value] >= 128 && (cps[r.value] < n || (cps[r.value] == n && r.value < j))
  {
    if cps == [] then None
    else
      var e := |cps| - 1;
      var r := Before(cps[..e], n, j);
      if cps[e] < 128 || !(cps[e] < n || (cps[e] == n && e < j)) then r
      else if r.None? || cps[r.value] <= cps[e] then Some(e) else r
  }

  /** Where the code point at j goes among those already out. */
  function Rank(cps: seq<nat>, n: nat, j: nat): (r: nat)
    requires j <= |cps|
    ensures r <= j
  {
    |Kept(cps[..j], n, j)|
  }

  /** The decoder's n and i once everything before (n, j) is out. */
  function NowN(cps: seq<nat>, n: nat, j: nat): nat {
    match Before(cps, n, j) case None => 128 case Some(b) => cps[b]
  }

  function NowI(cps: seq<nat>, n: nat, j: nat): nat {
    match Before(cps, n, j) case None => 0 case Some(b) => Rank(cps, cps[b], b) + 1
  }

  /** How many decoder states lie between the previous insertion and the place of (n, j). */
  function Due(cps: seq<nat>, n: nat, j: nat): int
    requires j <= |cps|
  {
    (n - NowN(cps, n, j)) * (|Kept(cps, n, j)| + 1) + Rank(cps, n, j) - NowI(cps, n, j)
  }

  /** The delta section 6.3 gives the code point at j. */
  function Owed(cps: seq<nat>, j: nat): int
    requires j < |cps|
  {
    Due(cps, cps[j], j)
  }

  /** Some delta does not fit in 32 bits. */
  predicate TooBig(cps: seq<nat>) {
    exists j :: 0 <= j < |cps| && cps[j] >= 128 && Owed(cps, j) > UINT_MAX
  }

  lemma {:induction false} KeptPrefix(cps: seq<nat>, n: nat, j: nat, j': nat)
    requires |cps| <= j && |cps| <= j'
    ensures Kept(cps, n, j) == Kept(cps, n, j')
  {
    if cps != [] { KeptPrefix(cps[..|cps| - 1], n, j, j'); }
  }

  /** Passing position j adds nothing unless n stands there. */
  lemma {:induction false} KeptSkip(cps: seq<nat>, n: nat, j: nat)
    requires j < |cps| ==> cps[j] != n
    ensures Kept(cps, n, j + 1) == Kept(cps, n, j) && Before(cps, n, j + 1) == Before(cps, n, j)
  {
    if cps != [] { KeptSkip(cps[..|cps| - 1], n, j); }
  }

  /** Passing position j where n stands inserts n at its rank. */
  lemma {:induction false} KeptInsert(cps: seq<nat>, n: nat, j: nat)
    requires j < |cps| && cps[j] == n && n >= 128
    ensures Rank(cps, n, j) <= |Kept(cps, n, j)|
    ensures var k := Kept(cps, n, j); var at := Rank(cps, n, j); Kept(cps, n, j + 1) == k[..at] + [n] + k[at..]
    ensures Before(cps, n, j + 1) == Some(j)
  {
    var e := |cps| - 1;
    if e == j {
      KeptPrefix(cps[..e], n, j, j + 1);
      BeforePrefix(cps[..e], n, j);
    } else {
      assert cps[..e][..j] == cps[..j];
      KeptInsert(cps[..e], n, j);
      InsertBefore(Kept(cps[..e], n, j), Rank(cps, n, j), n, if cps[e] < n then [cps[e]] else []);
    }
  }

  lemma {:induction false} InsertBefore(k: seq<nat>, at: nat, n: nat, t: seq<nat>)
    requires at <= |k|
    ensures (k[..at] + [n] + k[at..]) + t == (k + t)[..at] + [n] + (k + t)[at..]
  {
  }

  lemma {:induction false} BeforePrefix(cps: seq<nat>, n: nat, j: nat)
    requires |cps| <= j
    ensures Before(cps, n, j + 1) == Before(cps, n, j)
  {
    if cps != [] { BeforePrefix(cps[..|cps| - 1], n, j); }
  }

  /** The rank grows by one past every code point that is out. */
  lemma {:induction false} RankNext(cps: seq<nat>, n: nat, j: nat)
    requires j < |cps|
    ensures Rank(cps, n, j + 1) == Rank(cps, n, j) + if cps[j] <= n then 1 else 0
  {
    assert cps[..j + 1][..j] == cps[..j];
    KeptPrefix(cps[..j], n, j, j + 1);
  }

  /** After a whole pass for n everything up to n is out. */
  lemma {:induction false} KeptRound(cps: seq<nat>, n: nat, j: nat)
    requires j >= |cps|
    ensures Kept(cps, n, j) == Kept(cps, n + 1, 0) && Before(cps, n, j) == Before(cps, n + 1, 0)
  {
    if cps != [] { KeptRound(cps[..|cps| - 1], n, j); }
  }

  /** Nothing lies between n and m. */
  lemma {:induction false} KeptGap(cps: seq<nat>, n: nat, m: nat)
    requires n <= m && forall i :: 0 <= i < |cps| ==> cps[i] < n || cps[i] >= m
    ensures Kept(cps, n, 0) == Kept(cps, m, 0) && Before(cps, n, 0) == Before(cps, m, 0)
  {
    if cps != [] {
      var e := |cps| - 1;
      assert forall i :: 0 <= i < e ==> cps[..e][i] == cps[i];
      KeptGap(cps[..e], n, m);
    }
  }

  lemma {:induction false} KeptAll(cps: seq<nat>, n: nat)
    requires forall i :: 0 <= i < |cps| ==> cps[i] < n
    ensures Kept(cps, n, 0) == cps
  {
    if cps != [] {
      var e := |cps| - 1;
      assert forall i :: 0 <= i < e ==> cps[..e][i] == cps[i];
      KeptAll(cps[..e], n);
    }
  }

  lemma {:induction false} KeptFull(cps: seq<nat>, n: nat, j: nat)
    requires |Kept(cps, n, j)| == |cps|
    ensures Kept(cps, n, j) == cps
  {
    if cps != [] { KeptFull(cps[..|cps| - 1], n, j); }
  }

  /** While something is missing, something is not below n. */
  lemma {:induction false} KeptShort(cps: seq<nat>, n: nat)
    requires |Kept(cps, n, 0)| < |cps|
    ensures exists i :: 0 <= i < |cps| && cps[i] >= n
  {
    if forall i :: 0 <= i < |cps| ==> cps[i] < n { KeptAll(cps, n); }
  }

  // ---------- how the debt grows as the encoder scans ----------

  lemma {:induction false} DueSkip(cps: seq<nat>, n: nat, j: nat)
    requires j < |cps| && cps[j] != n
    ensures Due(cps, n, j + 1) == Due(cps, n, j) + if cps[j] < n then 1 else 0
  {
    KeptSkip(cps, n, j);
    RankNext(cps, n, j);
  }

  lemma {:induction false} DuePaid(cps: seq<nat>, n: nat, j: nat)
    requires j < |cps| && cps[j] == n && n >= 128
    ensures Due(cps, n, j + 1) == 0
  {
    KeptInsert(cps, n, j);
    RankNext(cps, n, j);
  }

  lemma {:induction false} DueRound(cps: seq<nat>, n: nat)
    ensures Due(cps, n + 1, 0) == Due(cps, n, |cps|) + 1
  {
    KeptRound(cps, n, |cps|);
    assert cps[..|cps|] == cps;
    var h := |Kept(cps, n, |cps|)| + 1;
    var d := n - NowN(cps, n, |cps|);
    assert (d + 1) * h == d * h + h;
  }

  lemma {:induction false} DueGap(cps: seq<nat>, n: nat, m: nat)
    requires n <= m && forall i :: 0 <= i < |cps| ==> cps[i] < n || cps[i] >= m
    ensures Due(cps, m, 0) == Due(cps, n, 0) + (m - n) * (|Kept(cps, n, 0)| + 1)
    ensures |Kept(cps, m, 0)| == |Kept(cps, n, 0)|
  {
    KeptGap(cps, n, m);
    var h := |Kept(cps, n, 0)| + 1;
    var d := NowN(cps, n, 0);
    assert (m - d) * h == (n - d) * h + (m - n) * h;
  }

  /** If the debt is too big before a code point n that is still to come, its delta is. */
  lemma {:induction false} DueGrows(cps: seq<nat>, n: nat, j: nat, i: nat)
    requires j <= i < |cps| && cps[i] == n && n >= 128 && Due(cps, n, j) > UINT_MAX
    ensures TooBig(cps)
    decreases i - j
  {
    if cps[j] == n {
      assert Owed(cps, j) > UINT_MAX;
    } else {
      DueSkip(cps, n, j);
      DueGrows(cps, n, j + 1, i);
    }
  }

  /** Once an n has been passed in this round the debt is small. */
  lemma {:induction false} DueSmall(cps: seq<nat>, n: nat, j: nat, i: nat)
    requires i < j <= |cps| && cps[i] == n && n >= 128
    ensures Due(cps, n, j) <= j
    decreases j
  {
    if i + 1 == j || cps[j - 1] == n {
      DuePaid(cps, n, j - 1);
    } else {
      DueSkip(cps, n, j - 1);
      DueSmall(cps, n, j - 1, i);
    }
  }

  // ---------- the encoder of section 6.3 ----------

  lemma {:induction false} DueStart(cps: seq<nat>)
    ensures Before(cps, 128, 0) == None && Due(cps, 128, 0) == 0
  {
    NoneBefore(cps);
  }

  lemma {:induction false} NoneBefore(cps: seq<nat>)
    ensures Before(cps, 128, 0) == None
  {
    if cps != [] { NoneBefore(cps[..|cps| - 1]); }
  }

  /** No delta is negative. */
  lemma {:induction false} DueNonNegative(cps: seq<nat>, n: nat, j: nat)
    requires n >= 128 && j <= |cps|
    ensures Due(cps, n, j) >= 0
    decreases n, j
  {
    hide Due;
    if j > 0 {
      DueNonNegative(cps, n, j - 1);
      if cps[j - 1] == n { DuePaid(cps, n, j - 1); } else { DueSkip(cps, n, j - 1); }
    } else if n == 128 {
      DueStart(cps);
    } else {
      DueNonNegative(cps, n - 1, |cps|);
      DueRound(cps, n - 1);
    }
  }

  /** The delta of the code point at j. */
  function Delta(cps: seq<nat>, j: nat): (d: nat)
    requires j < |cps| && cps[j] >= 128
    ensures d == Owed(cps, j)
  {
    DueNonNegative(cps, cps[j], j);
    Owed(cps, j)
  }

  /** The bias in force when everything before (n, j) is out. */
  function BiasAt(cps: seq<nat>, n: nat, j: nat): nat {
    match Before(cps, n, j)
    case None => 72
    case Some(b) => Adapt(Delta(cps, b), |Kept(cps, cps[b], b)| + 1, Before(cps, cps[b], b).None?)
  }

  /** The deltas of everything before (n, j), in order of value, then position. */
  function Written(cps: seq<nat>, n: nat, j: nat): seq<byte>
    decreases n, j
  {
    match Before(cps, n, j)
    case None => []
    case Some(b) => Written(cps, cps[b], b) + Digits(Delta(cps, b), 36, BiasAt(cps, cps[b], b))
  }

  /** Passing the code point at j writes its delta. */
  lemma {:induction false} WrittenMore(cps: seq<nat>, j: nat)
    requires j < |cps| && cps[j] >= 128
    ensures Written(cps, cps[j], j + 1) == Written(cps, cps[j], j) + Digits(Delta(cps, j), 36, BiasAt(cps, cps[j], j))
    ensures BiasAt(cps, cps[j], j + 1)
            == Adapt(Delta(cps, j), |Kept(cps, cps[j], j)| + 1, Before(cps, cps[j], j).None?)
  {
    KeptInsert(cps, cps[j], j);
  }

  // ---------- the decoder undoes the encoder ----------

  /** The code point at e comes before (n, j). */
  predicate Precedes(cps: seq<nat>, e: nat, n: nat, j: nat)
    requires e < |cps|
  {
    cps[e] < n || (cps[e] == n && e < j)
  }

  lemma {:induction false} KeptSame(cps: seq<nat>, n: nat, j: nat, n': nat, j': nat)
    requires forall e :: 0 <= e < |cps| ==> (Precedes(cps, e, n, j) <==> Precedes(cps, e, n', j'))
    ensures Kept(cps, n, j) == Kept(cps, n', j')
  {
    if cps != [] {
      var p := cps[..|cps| - 1];
      forall e | 0 <= e < |p| ensures Precedes(p, e, n, j) <==> Precedes(p, e, n', j') {
        assert Precedes(cps, e, n, j) <==> Precedes(cps, e, n', j');
      }
      KeptSame(p, n, j, n', j');
      assert Precedes(cps, |p|, n, j) <==> Precedes(cps, |p|, n', j');
    }
  }

  /** Before finds the last: what precedes (n, j) is ASCII, or not behind it. */
  lemma {:induction false} BeforeLast(cps: seq<nat>, n: nat, j: nat, e: nat)
    requires e < |cps| && cps[e] >= 128 && Precedes(cps, e, n, j)
    ensures Before(cps, n, j).Some?
    ensures var b := Before(cps, n, j).value; cps[e] < cps[b] || (cps[e] == cps[b] && e <= b)
  {
    if e < |cps| - 1 { BeforeLast(cps[..|cps| - 1], n, j, e); }
  }

  /** Nothing lies between the last code point out and (n, j). */
  lemma {:induction false} KeptLast(cps: seq<nat>, n: nat, j: nat)
    requires n >= 128
    ensures match Before(cps, n, j)
            case None => Kept(cps, n, j) == Kept(cps, 128, 0)
            case Some(b) => Kept(cps, n, j) == Kept(cps, cps[b], b + 1)
  {
    hide Before, Kept;
    var (n', j') := match Before(cps, n, j) case None => (128, 0) case Some(b) => (cps[b], b + 1);
    forall e | 0 <= e < |cps| ensures Precedes(cps, e, n, j) <==> Precedes(cps, e, n', j') {
      if cps[e] >= 128 && Precedes(cps, e, n, j) { BeforeLast(cps, n, j, e); }
    }
    KeptSame(cps, n, j, n', j');
  }

  /** The decoder once everything before (n, j) is out. */
  function StateAt(cps: seq<nat>, n: nat, j: nat): State {
    State(NowN(cps, n, j), NowI(cps, n, j), BiasAt(cps, n, j), Kept(cps, n, j))
  }

  /** Reading the delta of the code point at j inserts it. */
  lemma {:induction false} InsertDelta(cps: seq<nat>, j: nat)
    requires j < |cps| && cps[j] >= 128
    ensures var st := StateAt(cps, cps[j], j); Insert(st, st.i + Delta(cps, j)) == StateAt(cps, cps[j], j + 1)
  {
    hide Digits, Adapt, Kept, Before;
    var n := cps[j];
    var st := StateAt(cps, n, j);
    var len := |st.output| + 1;
    KeptInsert(cps, n, j);
    WrittenMore(cps, j);
    var at := Rank(cps, n, j);
    NowBelow(cps, n, j);
    assert st.i + Delta(cps, j) == (n - st.n) * len + at;
    Split(n - st.n, len, at);
  }

  /** The decoder, given the deltas the encoder has written, is where the encoder is. */
  lemma {:induction false} WrittenRuns(cps: seq<nat>, n: nat, j: nat)
    requires n >= 128
    ensures Run(Initial(Kept(cps, 128, 0)), Written(cps, n, j)) == Some(StateAt(cps, n, j))
    decreases n, j
  {
    hide Run, Digits, Adapt, Kept, Before, Insert, Delta;
    KeptLast(cps, n, j);
    match Before(cps, n, j)
    case None => RunNone(Initial(Kept(cps, 128, 0)));
    case Some(b) =>
      WrittenRuns(cps, cps[b], b);
      RunOneMore(Initial(Kept(cps, 128, 0)), Written(cps, cps[b], b), Delta(cps, b));
      InsertDelta(cps, b);
      KeptInsert(cps, cps[b], b);
  }

  lemma {:induction false} RunNone(st: State)
    ensures Run(st, []) == Some(st)
  {
  }

  lemma {:induction false} NowBelow(cps: seq<nat>, n: nat, j: nat)
    requires n >= 128
    ensures NowN(cps, n, j) <= n
  {
  }

  lemma {:induction false} Split(a: nat, len: nat, at: nat)
    requires at < len
    ensures (a * len + at) / len == a && (a * len + at) % len == at
  {
    var q, r := (a * len + at) / len, (a * len + at) % len;
    SplitOnce(a, q, len, at, r);
  }

  lemma {:induction false} SplitOnce(a: nat, q: nat, len: nat, at: nat, r: nat)
    requires at < len && r < len && a * len + at == q * len + r
    ensures q == a && r == at
  {
    if q > a {
      assert q * len - a * len == (q - a) * len;
      TimesAtLeast(len, q - a);
    } else if q < a {
      assert a * len - q * len == (a - q) * len;
      TimesAtLeast(len, a - q);
    }
  }
}
