/**
 Host names to ASCII (idna.c): the Punycode encoder of uv__idna_toascii_label,
 proved against the decoder of RFC 3492, and uv__idna_toascii, which splits a
 name at its dots.
 */
module Idna {
  import opened Bytes
  import opened Utf8
  import opened Punycode

  /** The pair of pointers (*d, de): writes go to dst[d] until end is reached;
      what does not fit is dropped. */
  class Writer {
    const dst: array<byte>
    const start: nat
    const end: nat
    var d: nat
    /** Everything that was to be written. */
    ghost var text: seq<byte>
    ghost const before: seq<byte>

    constructor (dst: array<byte>, start: nat, end: nat)
      requires start <= end <= dst.Length
      ensures Valid() && text == [] && this.dst == dst && this.start == start && this.end == end && before == dst[..]
    {
      this.dst, this.start, this.end, d := dst, start, end, start;
      text, before := [], dst[..];
    }

    ghost predicate Valid()
      reads this, dst
    {
      && start <= d <= end <= dst.Length
      && d == start + Min(end - start, |text|)
      && dst[start..d] == text[..d - start]
      && |before| == dst.Length && dst[..start] == before[..start] && dst[end..] == before[end..]
    }

    /** The "xn--" prefix. */
    method PutXn()
      requires Valid()
      modifies this`d, this`text, dst
      ensures Valid() && text == old(text) + XN
    {
      Put(0x78);
      Put(0x6E);
      Put(0x2D);
      Put(0x2D);
    }

    /** if (*d < de) *(*d)++ = c; */
    method Put(c: byte)
      requires Valid()
      modifies this`d, this`text, dst
      ensures Valid() && text == old(text) + [c]
    {
      if d < end {
        dst[d] := c;
        d := d + 1;
      }
      text := text + [c];
    }
  }

  /** The code points of s, unless some part of it is refused. */
  function All(s: seq<byte>): Option<seq<nat>>
    decreases |s|
  {
    if s == [] then Some([])
    else
      match Decode(s)
      case None => None
      case Some(r) => Prepend([r.0], All(s[r.1..]))
  }

  function Prepend(a: seq<nat>, o: Option<seq<nat>>): Option<seq<nat>> {
    match o case None => None case Some(b) => Some(a + b)
  }

  /** One step of a scan. */
  lemma {:induction false} ScanStep(s: seq<byte>, p: nat, pe: nat, cps: seq<nat>, j: nat)
    requires p < pe <= |s| && j <= |cps| && All(s[p..pe]) == Some(cps[j..])
    ensures j < |cps| && Decode(s[p..pe]).Some?
    ensures var r := Decode(s[p..pe]).value; cps[j] == r.0 && p + r.1 <= pe && All(s[p + r.1..pe]) == Some(cps[j + 1..])
  {
    var r := Decode(s[p..pe]).value;
    assert s[p..pe][r.1..] == s[p + r.1..pe];
    var rest := All(s[p + r.1..pe]).value;
    assert cps[j..] == [r.0] + rest;
    assert cps[j + 1..] == cps[j..][1..] == rest;
  }

  lemma {:induction false} ScanEnd(s: seq<byte>, p: nat, cps: seq<nat>, j: nat)
    requires p <= |s| && j <= |cps| && All(s[p..p]) == Some(cps[j..])
    ensures j == |cps|
  {
  }

  /** Every code point read is a scalar value. */
  lemma {:induction false} AllScalar(s: seq<byte>)
    requires All(s).Some?
    ensures forall i :: 0 <= i < |All(s).value| ==> IsScalar(All(s).value[i])
    ensures |All(s).value| <= |s|
    decreases |s|
  {
    if s != [] { AllScalar(s[Decode(s).value.1..]); }
  }

  // ---------- the state of the encoder ----------

  datatype Enc = Enc(basic: seq<nat>, digits: seq<byte>, h: nat, bias: nat, delta: nat, first: bool)

  /** Every delta before (n, j) fits in 32 bits. */
  predicate AllFit(cps: seq<nat>, n: nat, j: nat) {
    forall i :: 0 <= i < |cps| && cps[i] >= 128 && (cps[i] < n || (cps[i] == n && i < j)) ==> Owed(cps, i) <= UINT_MAX
  }

  /** The variables of the encoder agree with what is out, and delta is what is due. */
  predicate Good(cps: seq<nat>, n: nat, j: nat, e: Enc) {
    && j <= |cps| && n >= 128
    && e.digits == Written(cps, n, j) && e.bias == BiasAt(cps, n, j)
    && e.delta == Due(cps, n, j) && e.delta <= UINT_MAX
    && e.h == |Kept(cps, n, j)|
    && (e.first <==> Before(cps, n, j).None?)
    && AllFit(cps, n, j)
  }

  lemma {:induction false} GoodStart(cps: seq<nat>)
    ensures var b := Kept(cps, 128, 0); Good(cps, 128, 0, Enc(b, [], |b|, 72, 0, true))
  {
    DueStart(cps);
  }

  lemma {:induction false} GoodSkip(cps: seq<nat>, n: nat, j: nat, e: Enc)
    requires Good(cps, n, j, e) && j < |cps| && cps[j] != n && (cps[j] < n ==> e.delta < UINT_MAX)
    ensures Good(cps, n, j + 1, e.(delta := e.delta + if cps[j] < n then 1 else 0))
  {
    hide Run, Kept, Before;
    KeptSkip(cps, n, j);
    DueSkip(cps, n, j);
  }

  lemma {:induction false} GoodInsert(cps: seq<nat>, n: nat, j: nat, e: Enc)
    requires Good(cps, n, j, e) && j < |cps| && cps[j] == n
    ensures Good(cps, n, j + 1, Paid(e)) && Paid(e).h <= |cps|
  {
    hide Kept, Before, Due, Digits, Adapt, Written, BiasAt;
    WrittenMore(cps, j);
    KeptInsert(cps, n, j);
    DuePaid(cps, n, j);
  }

  /** The encoder after it has written delta and inserted a code point. */
  function Paid(e: Enc): Enc {
    Enc(e.basic, e.digits + Digits(e.delta, 36, e.bias), e.h + 1,
        Adapt(e.delta, e.h + 1, e.first), 0, false)
  }

  lemma {:induction false} GoodRound(cps: seq<nat>, n: nat, e: Enc)
    requires Good(cps, n, |cps|, e) && e.delta < UINT_MAX
    ensures Good(cps, n + 1, 0, e.(delta := e.delta + 1))
  {
    hide Run, Kept, Before;
    KeptRound(cps, n, |cps|);
    DueRound(cps, n);
  }

  lemma {:induction false} GoodGap(cps: seq<nat>, n: nat, m: nat, e: Enc, delta: nat)
    requires Good(cps, n, 0, e) && n <= m && forall i :: 0 <= i < |cps| ==> cps[i] < n || cps[i] >= m
    requires delta == e.delta + (m - n) * (e.h + 1) && delta <= UINT_MAX
    ensures Good(cps, m, 0, e.(delta := delta))
  {
    hide Run, Kept, Before, Due;
    KeptGap(cps, n, m);
    DueGap(cps, n, m);
  }

  // ---------- the passes over the label ----------

  /** The first loop: counts ASCII and other characters, and refuses bad text. */
  method CountPass(src: seq<byte>, s: nat, se: nat) returns (ok: bool, h: nat, todo: nat)
    requires s <= se <= |src|
    ensures ok <==> All(src[s..se]).Some?
    ensures ok ==> var cps := All(src[s..se]).value; h == |Kept(cps, 128, 0)| && h + todo == |cps|
  {
    var p := s;
    h, todo := 0, 0;
    ghost var done: seq<nat> := [];
    PrependNone(All(src[s..se]));
    while p < se
      invariant s <= p <= se
      invariant All(src[s..se]) == Prepend(done, All(src[p..se]))
      invariant h == |Kept(done, 128, 0)| && h + todo == |done|
    {
      var c, p' := Decode1(src, p, se);
      if c == -1 { return false, h, todo; }
      assert src[p..se][p' - p..] == src[p'..se];
      Regroup(done, c, All(src[p'..se]));
      assert (done + [c])[..|done|] == done;
      done := done + [c];
      if c < 128 { h := h + 1; } else { todo := todo + 1; }
      p := p';
    }
    assert src[p..se] == [] && done + [] == done;
    ok := true;
  }

  lemma {:induction false} PrependNone(o: Option<seq<nat>>)
    ensures Prepend([], o) == o
  {
    if o.Some? { assert [] + o.value == o.value; }
  }

  lemma {:induction false} Regroup(a: seq<nat>, c: nat, o: Option<seq<nat>>)
    ensures Prepend(a, Prepend([c], o)) == Prepend(a + [c], o)
  {
    if o.Some? { assert a + ([c] + o.value) == a + [c] + o.value; }
  }

  /** ASCII code points as bytes. */
  function Ascii(a: seq<nat>): (r: seq<byte>)
    requires forall i :: 0 <= i < |a| ==> a[i] < 128
    ensures |r| == |a| && forall i :: 0 <= i < |a| ==> r[i] == a[i]
  {
    seq(|a|, i requires 0 <= i < |a| => a[i])
  }

  lemma {:induction false} KeptAscii(cps: seq<nat>)
    ensures forall i :: 0 <= i < |Kept(cps, 128, 0)| ==> Kept(cps, 128, 0)[i] < 128
  {
    if cps != [] { KeptAscii(cps[..|cps| - 1]); }
  }

  /** What is kept of a prefix is a prefix of what is kept. */
  lemma {:induction false} KeptOfPrefix(cps: seq<nat>, n: nat, e: nat)
    requires e <= |cps|
    ensures Kept(cps[..e], n, 0) <= Kept(cps, n, 0)
  {
    if e == |cps| {
      assert cps[..e] == cps;
    } else {
      var k := |cps| - 1;
      assert cps[..k][..e] == cps[..e];
      KeptOfPrefix(cps[..k], n, e);
    }
  }

  lemma {:induction false} KeptStart(cps: seq<nat>)
    ensures Kept(cps[..0], 128, 0) == []
  {
  }

  lemma {:induction false} KeptStep(cps: seq<nat>, j: nat)
    requires j < |cps|
    ensures Kept(cps[..j + 1], 128, 0) == Kept(cps[..j], 128, 0) + (if cps[j] < 128 then [cps[j]] else [])
    ensures Kept(cps[..j + 1], 128, 0) <= Kept(cps, 128, 0)
  {
    assert cps[..j + 1][..j] == cps[..j];
    KeptOfPrefix(cps, 128, j + 1);
  }

  lemma {:induction false} AsciiStep(a: seq<nat>, x: nat, b: byte)
    requires (forall i :: 0 <= i < |a| ==> a[i] < 128) && x < |a| && a[x] == b
    ensures Ascii(a)[..x + 1] == Ascii(a)[..x] + [b]
  {
  }

  /** The second loop: writes the ASCII characters, h of them. */
  method AsciiPass(src: seq<byte>, s: nat, se: nat, w: Writer, h: nat, ghost cps: seq<nat>)
    requires s <= se <= |src| && All(src[s..se]) == Some(cps) && h == |Kept(cps, 128, 0)|
    requires w.Valid()
    modifies w`d, w`text, w.dst
    ensures w.Valid()
    ensures forall i :: 0 <= i < |Kept(cps, 128, 0)| ==> Kept(cps, 128, 0)[i] < 128
    ensures w.text == old(w.text) + Ascii(Kept(cps, 128, 0))
  {
    hide Kept, Ascii, All, Decode;
    var p, x := s, 0;
    ghost var j: nat := 0;
    KeptAscii(cps);
    KeptStart(cps);
    assert cps[0..] == cps;
    while p < se
      invariant s <= p <= se && j <= |cps| && w.Valid()
      invariant All(src[p..se]) == Some(cps[j..])
      invariant x == |Kept(cps[..j], 128, 0)| && Kept(cps[..j], 128, 0) <= Kept(cps, 128, 0)
      invariant w.text == old(w.text) + Ascii(Kept(cps, 128, 0))[..x]
    {
      ScanStep(src, p, se, cps, j);
      var c;
      c, p := Decode1(src, p, se);
      KeptStep(cps, j);
      j := j + 1;
      if c > 127 { continue; }
      AsciiStep(Kept(cps, 128, 0), x, c);
      w.Put(c);
      x := x + 1;
      if x == h { break; }
    }
    if p == se && All(src[p..se]) == Some(cps[j..]) {
      ScanEnd(src, p, cps, j);
      assert cps[..j] == cps;
    }
  }

  /** The scan for the least code point that is not below n. */
  method LeastPass(src: seq<byte>, s: nat, se: nat, n: nat, ghost cps: seq<nat>) returns (m: nat)
    requires s <= se <= |src| && All(src[s..se]) == Some(cps) && n <= 0x110000
    requires exists i :: 0 <= i < |cps| && cps[i] >= n
    ensures n <= m <= 0x10FFFF && exists i :: 0 <= i < |cps| && cps[i] == m
    ensures forall i :: 0 <= i < |cps| ==> cps[i] < n || cps[i] >= m
  {
    hide All, Decode;
    m := UINT_MAX;
    var p := s;
    ghost var j: nat := 0;
    AllScalar(src[s..se]);
    assert cps[0..] == cps;
    while p < se
      invariant s <= p <= se && j <= |cps|
      invariant All(src[p..se]) == Some(cps[j..])
      invariant m == UINT_MAX || (m >= n && exists i :: 0 <= i < j && cps[i] == m)
      invariant forall i :: 0 <= i < j ==> cps[i] < n || cps[i] >= m
    {
      ScanStep(src, p, se, cps, j);
      var c;
      c, p := Decode1(src, p, se);
      if c >= n {
        if c < m { m := c; }
      }
      j := j + 1;
    }
    ScanEnd(src, p, cps, j);
  }

  /** Writes delta as a variable-length integer (the innermost loop). */
  method PutDelta(w: Writer, delta: nat, bias: nat)
    requires w.Valid() && delta <= UINT_MAX
    modifies w`d, w`text, w.dst
    ensures w.Valid() && w.text == old(w.text) + Digits(delta, 36, bias)
  {
    hide Alphabet, Low, High, Digits;
    var k: nat, q: nat := 36, delta;
    ghost var done: seq<byte> := [];
    assert done + Digits(q, k, bias) == Digits(delta, 36, bias);
    while true
      invariant w.Valid() && w.text == old(w.text) + done
      invariant done + Digits(q, k, bias) == Digits(delta, 36, bias)
      decreases q
    {
      var t := 1;
      if k > bias { t := k - bias; }
      if t > 26 { t := 26; }
      assert t == Threshold(k, bias);
      if q < t { break; }
      DigitsMore(done, q, k, bias);
      LowHigh(q, t);
      done := done + [Alphabet(Low(q, t))];
      var x := q - t;
      var y := 36 - t;
      q := x / y;
      t := t + x % y;
      w.Put(Alphabet(t));
      k := k + 36;
    }
    DigitsLast(q, k, bias);
    w.Put(Alphabet(q));
  }

  lemma {:induction false} LowHigh(q: nat, t: nat)
    requires 1 <= t <= 26 && t <= q
    ensures Low(q, t) == t + (q - t) % (36 - t) < 36 && High(q, t) == (q - t) / (36 - t) < q
  {
  }

  lemma {:induction false} DigitsLast(q: nat, k: nat, bias: nat)
    requires q < Threshold(k, bias)
    ensures Digits(q, k, bias) == [Alphabet(q)]
  {
  }

  lemma {:induction false} DigitsMore(done: seq<byte>, q: nat, k: nat, bias: nat)
    requires q >= Threshold(k, bias)
    ensures var t := Threshold(k, bias);
            (done + [Alphabet(Low(q, t))]) + Digits(High(q, t), k + 36, bias) == done + Digits(q, k, bias)
  {
  }

  /** The adaptation of the bias, as the loop after each insertion does it. */
  method NextBias(delta0: nat, h: nat, first: bool) returns (bias: nat)
    requires h >= 1 && delta0 <= UINT_MAX
    ensures bias == Adapt(delta0, h, first)
  {
    var delta: nat := delta0 / 2;
    if first {
      delta := delta / 350;
      assert delta == delta0 / 700;
    }
    DivBelow(delta, h);
    assert delta + delta / h <= UINT_MAX;  // no wrap
    delta := delta + delta / h;
    bias := 0;
    ghost var d: nat := delta;
    while delta > 35 * 26 / 2
      invariant AdaptLoop(d, 0) == AdaptLoop(delta, bias)
      decreases delta
    {
      delta := delta / 35;
      bias := bias + 36;
    }
    assert 36 * delta <= UINT_MAX;
    bias := bias + 36 * delta / (delta + 38);
  }

  /** Writes the delta of one code point and adapts the bias. */
  method InsertOne(w: Writer, n: nat, h: nat, bias: nat, delta: nat, first: bool, ghost cps: seq<nat>, ghost j: nat, ghost e: Enc)
      returns (h': nat, bias': nat, ghost e': Enc)
    requires Good(cps, n, j, e) && e.h == h && e.bias == bias && e.delta == delta && e.first == first
    requires j < |cps| && cps[j] == n && w.Valid()
    modifies w`d, w`text, w.dst
    ensures w.Valid()
    ensures Good(cps, n, j + 1, e') && e'.h == h' && e'.bias == bias' && e'.delta == 0 && !e'.first && e'.basic == e.basic
    ensures h' == h + 1 <= |cps|
    ensures e.digits <= e'.digits && w.text == old(w.text) + e'.digits[|e.digits|..]
  {
    hide Good, Run, Digits, Adapt, Insert;
    GoodFacts(cps, n, j, e);
    GoodInsert(cps, n, j, e);
    PutDelta(w, delta, bias);
    h' := h + 1;
    bias' := NextBias(delta, h', first);
    e' := Paid(e);
  }

  /** The scan that inserts every occurrence of n. */
  method InsertPass(src: seq<byte>, s: nat, se: nat, w: Writer, n: nat, h0: nat, bias0: nat, delta0: nat, first0: bool,
                    todo0: nat, ghost cps: seq<nat>, ghost e0: Enc)
      returns (rc: int, h: nat, bias: nat, delta: nat, first: bool, todo: nat, ghost e: Enc)
    requires s <= se <= |src| && se - s <= INT_MAX && All(src[s..se]) == Some(cps)
    requires Good(cps, n, 0, e0) && e0.h == h0 && e0.bias == bias0 && e0.delta == delta0 && e0.first == first0
    requires h0 + todo0 == |cps| && exists i :: 0 <= i < |cps| && cps[i] == n
    requires w.Valid()
    modifies w`d, w`text, w.dst
    ensures w.Valid()
    ensures rc == 0 || (rc == UV_E2BIG && TooBig(cps))
    ensures rc == 0 ==> Good(cps, n, |cps|, e) && e.h == h && e.bias == bias && e.delta == delta && e.first == first
    ensures rc == 0 ==> h + todo == |cps| && h > h0 && delta <= |cps| <= INT_MAX && e.basic == e0.basic
    ensures rc == 0 ==> e0.digits <= e.digits && w.text == old(w.text) + e.digits[|e0.digits|..]
  {
    hide All, Good, Run, Digits, Adapt, Insert, TooBig, Decode, Due, Before, Kept;
    rc, h, bias, delta, first, todo, e := 0, h0, bias0, delta0, first0, todo0, e0;
    var p := s;
    ghost var j: nat := 0;
    AllScalar(src[s..se]);
    assert cps[0..] == cps;
    while p < se
      invariant s <= p <= se && j <= |cps| && All(src[p..se]) == Some(cps[j..])
      invariant Good(cps, n, j, e) && e.h == h && e.bias == bias && e.delta == delta && e.first == first
      invariant h + todo == |cps| && h >= h0 && e.basic == e0.basic
      invariant (exists i :: 0 <= i < j && cps[i] == n) ==> h > h0
      invariant e0.digits <= e.digits && w.Valid() && w.text == old(w.text) + e.digits[|e0.digits|..]
    {
      ScanStep(src, p, se, cps, j);
      var c;
      c, p := Decode1(src, p, se);
      GoodFacts(cps, n, j, e);
      if c < n {
        if delta == UINT_MAX {
          NoRoom(cps, n, j, e);
          return UV_E2BIG, h, bias, delta, first, todo, e;
        }
        delta := delta + 1;
      }
      if c != n {
        GoodSkip(cps, n, j, e);
        e := e.(delta := delta);
        j := j + 1;
        continue;
      }
      h, bias, e := InsertOne(w, n, h, bias, delta, first, cps, j, e);
      delta, first := 0, false;
      todo := todo - 1;
      j := j + 1;
    }
    ScanEnd(src, p, cps, j);
    GoodFacts(cps, n, j, e);
    ghost var i :| 0 <= i < |cps| && cps[i] == n;
    DueSmall(cps, n, j, i);
  }

  lemma {:induction false} GoodFacts(cps: seq<nat>, n: nat, j: nat, e: Enc)
    requires Good(cps, n, j, e)
    ensures e.delta <= UINT_MAX && e.delta == Due(cps, n, j) && e.h <= |cps| && n >= 128
    ensures e.h == |cps| ==> e.h == |Kept(cps, n, j)|
  {
  }

  /** delta has reached the largest 32-bit value and must still grow. */
  lemma {:induction false} NoRoom(cps: seq<nat>, n: nat, j: nat, e: Enc)
    requires Good(cps, n, j, e) && j < |cps| <= INT_MAX && cps[j] < n && e.delta == UINT_MAX
    requires exists i :: 0 <= i < |cps| && cps[i] == n
    ensures TooBig(cps)
  {
    hide Due, Run, Kept, Before;
    var i: nat :| 0 <= i < |cps| && cps[i] == n;
    if i < j { DueSmall(cps, n, j, i); }
    DueSkip(cps, n, j);
    DueGrows(cps, n, j + 1, i);
  }

  /** Section 6.3: the ASCII code points, a '-' unless there are none, and the deltas. */
  function PunyEncode(cps: seq<nat>): seq<byte> {
    KeptAscii(cps);
    Ascii(Kept(cps, 128, 0)) + Dash(Kept(cps, 128, 0)) + Written(cps, 0x110000, 0)
  }

  /** The ASCII form of a label: the label itself, or xn-- and its Punycode. */
  function AsciiLabel(cps: seq<nat>): seq<byte> {
    if forall i :: 0 <= i < |cps| ==> cps[i] < 128 then Ascii(cps) else XN + PunyEncode(cps)
  }

  predicate LabelText(cps: seq<nat>, t: seq<byte>) {
    t == AsciiLabel(cps)
  }

  /** rest is the end of s, and what comes before it holds no '-'. */
  predicate DashFree(s: seq<byte>, rest: seq<byte>) {
    |rest| <= |s| && rest == s[|s| - |rest|..] && forall m :: 0 <= m < |s| - |rest| ==> s[m] != 0x2D
  }

  lemma {:induction false} DashFreeMore(s: seq<byte>, rest: seq<byte>)
    requires s != [] && DigitValue(s[0]).Some? && DashFree(s[1..], rest)
    ensures DashFree(s, rest)
  {
    forall m | 0 <= m < |s| - |rest| ensures s[m] != 0x2D { if m > 0 { assert s[1..][m - 1] == s[m]; } }
  }

  lemma {:induction false} DashFreeOne(s: seq<byte>)
    ensures DashFree(s, s)
  {
  }

  /** What the decoder reads are digits, so no '-'. */
  lemma {:induction false} ReadVarDigits(s: seq<byte>, k: nat, w: nat, bias: nat, i: nat)
    requires ReadVar(s, k, w, bias, i).Some?
    ensures DashFree(s, ReadVar(s, k, w, bias, i).value.1)
    decreases |s|
  {
    hide Threshold, DashFree, DigitValue;
    var t := Threshold(k, bias);
    var d := DigitValue(s[0]).value;
    if d < t {
      DashFreeOne(s[1..]);
    } else {
      ReadVarDigits(s[1..], k + 36, w * (36 - t), bias, i + d * w);
    }
    DashFreeMore(s, ReadVar(s, k, w, bias, i).value.1);
  }

  lemma {:induction false} RunDigits(st: State, s: seq<byte>)
    requires Run(st, s).Some?
    ensures forall m :: 0 <= m < |s| ==> s[m] != 0x2D
    decreases |s|
  {
    if s != [] {
      ReadVarDigits(s, 36, 1, st.bias, st.i);
      var (i, rest) := ReadVar(s, 36, 1, st.bias, st.i).value;
      var n := |s| - |rest|;
      RunDigits(Insert(st, i), rest);
      forall m | 0 <= m < |s| ensures s[m] != 0x2D { if m >= n { assert rest[m - n] == s[m]; } }
    }
  }

  lemma {:induction false} DelimiterAt(a: seq<byte>, d: seq<byte>)
    requires forall m :: 0 <= m < |d| ==> d[m] != 0x2D
    ensures LastDelimiter(a + [0x2D] + d) == Some(|a|)
    ensures LastDelimiter(d) == None
    decreases |d|
  {
    var s := a + [0x2D] + d;
    if d != [] {
      assert s[..|s| - 1] == a + [0x2D] + d[..|d| - 1];
      DelimiterAt(a, d[..|d| - 1]);
    }
  }

  /** The decoder of section 6.2 inverts the encoder of section 6.3 on every sequence
      of code points. */
  lemma {:induction false} PunycodeRoundTrip(cps: seq<nat>)
    requires forall i :: 0 <= i < |cps| ==> cps[i] <= 0x10FFFF
    ensures PunyDecode(PunyEncode(cps)) == Some(cps)
  {
    hide Run, LastDelimiter, Kept, Written, StateAt;
    var kept := Kept(cps, 128, 0);
    var digits := Written(cps, 0x110000, 0);
    KeptAscii(cps);
    KeptAll(cps, 0x110000);
    WrittenRuns(cps, 0x110000, 0);
    StateOutput(cps);
    RunDigits(Initial(kept), digits);
    var a := Ascii(kept);
    DelimiterAt(a, digits);
    var basic: seq<nat> := a;
    assert basic == kept;
    var s := PunyEncode(cps);
    if kept == [] {
      assert s == digits;
    } else {
      assert s == a + [0x2D] + digits;
      assert s[..|a|] == a && s[|a| + 1..] == digits;
    }
  }

  lemma {:induction false} StateOutput(cps: seq<nat>)
    ensures StateAt(cps, 0x110000, 0).output == Kept(cps, 0x110000, 0)
  {
  }

  /** What follows the prefix of a label that is not ASCII decodes to the label. */
  lemma {:induction false} LabelDecodes(cps: seq<nat>, t: seq<byte>, k: nat)
    requires LabelText(cps, t) && k < |cps| && cps[k] >= 128
    requires forall i :: 0 <= i < |cps| ==> cps[i] <= 0x10FFFF
    ensures |t| >= 4 && t[..4] == XN && PunyDecode(t[4..]) == Some(cps)
  {
    hide PunyDecode, PunyEncode;
    PunycodeRoundTrip(cps);
    assert t[4..] == PunyEncode(cps);
  }

  lemma {:induction false} FitsAll(cps: seq<nat>, n: nat, e: Enc)
    requires Good(cps, n, 0, e) && |Kept(cps, n, 0)| == |cps|
    ensures !TooBig(cps)
  {
    hide Before, Due, Written, BiasAt;
    forall j | 0 <= j < |cps| && cps[j] >= 128 ensures Owed(cps, j) <= UINT_MAX {
      KeptFull(cps, n, 0);
      AllKept(cps, n, j);
    }
  }

  lemma {:induction false} AllKept(cps: seq<nat>, n: nat, j: nat)
    requires |Kept(cps, n, 0)| == |cps| && j < |cps|
    ensures cps[j] < n
  {
    if j < |cps| - 1 { AllKept(cps[..|cps| - 1], n, j); }
  }

  /** The 32-bit overflow test before delta grows by x * y. */
  lemma {:induction false} OverflowTest(delta: nat, x: nat, y: nat)
    requires y >= 1 && delta <= UINT_MAX
    ensures x > (UINT_MAX - delta) / y <==> delta + x * y > UINT_MAX
  {
    var r := UINT_MAX - delta;
    var q := r / y;
    ModBelow(r, y);
    if x > q {
      MulSplit(x, q, y);
      TimesAtLeast(y, x - q);
    } else {
      MulSplit(q, x, y);
    }
  }

  lemma {:induction false} MulSplit(a: nat, b: nat, y: nat)
    requires a >= b
    ensures a * y == b * y + (a - b) * y && (a - b) * y >= 0
  {
  }

  function StartOf(cps: seq<nat>): (e: Enc)
    ensures e.basic == Kept(cps, 128, 0) && e.digits == [] && e.h == |Kept(cps, 128, 0)|
    ensures e.bias == 72 && e.delta == 0 && e.first
  {
    var b := Kept(cps, 128, 0);
    Enc(b, [], |b|, 72, 0, true)
  }

  lemma {:induction false} PlainLabel(cps: seq<nat>)
    requires |Kept(cps, 128, 0)| == |cps|
    ensures forall i :: 0 <= i < |Kept(cps, 128, 0)| ==> Kept(cps, 128, 0)[i] < 128
    ensures LabelText(cps, Ascii(Kept(cps, 128, 0))) && !TooBig(cps)
  {
    KeptAscii(cps);
    KeptFull(cps, 128, 0);
  }

  lemma {:induction false} HoldsSome(cps: seq<nat>, n: nat, e: Enc)
    requires Good(cps, n, 0, e) && e.h < |cps|
    ensures exists i :: 0 <= i < |cps| && cps[i] >= n
  {
    KeptShort(cps, n);
  }

  /** The next code point would need a delta of more than 32 bits. */
  lemma {:induction false} GapTooBig(cps: seq<nat>, n: nat, m: nat, e: Enc)
    requires Good(cps, n, 0, e) && n <= m && forall i :: 0 <= i < |cps| ==> cps[i] < n || cps[i] >= m
    requires exists i :: 0 <= i < |cps| && cps[i] == m
    requires e.delta + (m - n) * (e.h + 1) > UINT_MAX
    ensures TooBig(cps)
  {
    hide Run, Before, Due, Kept, TooBig;
    var i: nat :| 0 <= i < |cps| && cps[i] == m;
    DueGap(cps, n, m);
    DueGrows(cps, m, 0, i);
  }

  function Dash(basic: seq<nat>): seq<byte> { if basic != [] then [0x2D] else [] }

  const XN: seq<byte> := [0x78, 0x6E, 0x2D, 0x2D]

  lemma {:induction false} Finished(cps: seq<nat>, n: nat, e: Enc)
    requires Good(cps, n, 0, e) && e.h == |cps| && e.basic == Kept(cps, 128, 0) && |e.basic| < |cps| && n <= 0x110000
    requires forall i :: 0 <= i < |cps| ==> cps[i] <= 0x10FFFF
    ensures forall i :: 0 <= i < |e.basic| ==> e.basic[i] < 128
    ensures LabelText(cps, XN + Ascii(e.basic) + Dash(e.basic) + e.digits)
    ensures !TooBig(cps)
  {
    hide Kept, TooBig, Good, Written, Ascii;
    GoodFacts(cps, n, 0, e);
    FitsAll(cps, n, e);
    KeptAscii(cps);
    WrittenAll(cps, n, e);
    assert XN + Ascii(e.basic) + Dash(e.basic) + e.digits == XN + (Ascii(e.basic) + Dash(e.basic) + e.digits);
    if forall i :: 0 <= i < |cps| ==> cps[i] < 128 { KeptAll(cps, 128); }
  }

  lemma {:induction false} WrittenAll(cps: seq<nat>, n: nat, e: Enc)
    requires Good(cps, n, 0, e) && e.h == |cps| && n <= 0x110000
    ensures e.digits == Written(cps, 0x110000, 0)
  {
    hide Kept, Before, Due;
    forall j | 0 <= j < |cps| ensures cps[j] < n { AllKept(cps, n, j); }
    KeptGap(cps, n, 0x110000);
  }

  /** The next code point to insert, and delta raised to its first place. */
  method NextPoint(src: seq<byte>, s: nat, se: nat, n: nat, h: nat, delta: nat, ghost cps: seq<nat>, ghost e: Enc)
      returns (over: bool, m: nat, delta': nat)
    requires s <= se <= |src| && All(src[s..se]) == Some(cps) && n <= 0x110000
    requires Good(cps, n, 0, e) && e.h == h && e.delta == delta && h < |cps|
    ensures over ==> TooBig(cps)
    ensures !over ==> m <= 0x10FFFF && Good(cps, m, 0, e.(delta := delta')) && exists i :: 0 <= i < |cps| && cps[i] == m
  {
    hide Good, All, TooBig;
    GoodFacts(cps, n, 0, e);
    HoldsSome(cps, n, e);
    m := LeastPass(src, s, se, n, cps);
    var x := m - n;
    var y := h + 1;
    OverflowTest(delta, x, y);
    if x > (UINT_MAX - delta) / y {
      GapTooBig(cps, n, m, e);
      return true, m, delta;
    }
    GoodGap(cps, n, m, e, delta + x * y);
    return false, m, delta + x * y;
  }

  /** The outer loop of the encoder. */
  method InsertAll(src: seq<byte>, s: nat, se: nat, w: Writer, h0: nat, todo0: nat, ghost cps: seq<nat>) returns (rc: int, ghost e: Enc)
    requires s <= se <= |src| && se - s <= INT_MAX && All(src[s..se]) == Some(cps)
    requires h0 == |Kept(cps, 128, 0)| && h0 + todo0 == |cps| && todo0 > 0
    requires w.Valid()
    modifies w`d, w`text, w.dst
    ensures w.Valid()
    ensures rc == 0 || (rc == UV_E2BIG && TooBig(cps))
    ensures forall i :: 0 <= i < |Kept(cps, 128, 0)| ==> Kept(cps, 128, 0)[i] < 128
    ensures rc == 0 ==> !TooBig(cps) && e.basic == Kept(cps, 128, 0) && w.text == old(w.text) + e.digits
    ensures rc == 0 ==> LabelText(cps, XN + Ascii(e.basic) + Dash(e.basic) + e.digits)
  {
    hide Good, Run, All, TooBig, LabelText, Ascii, Kept;
    e := StartOf(cps);
    GoodStart(cps);
    KeptAscii(cps);
    AllScalar(src[s..se]);
    var h, todo := h0, todo0;
    var n: nat, bias, delta: nat, first := 128, 72, 0, true;
    while todo > 0
      invariant Good(cps, n, 0, e) && e.h == h && e.bias == bias && e.delta == delta && e.first == first
      invariant h + todo == |cps| && e.basic == Kept(cps, 128, 0) && n <= 0x110000
      invariant w.Valid() && w.text == old(w.text) + e.digits
      decreases todo
    {
      var over, m, delta' := NextPoint(src, s, se, n, h, delta, cps, e);
      if over { return UV_E2BIG, e; }
      delta := delta';
      e := e.(delta := delta');
      n := m;
      rc, h, bias, delta, first, todo, e := InsertPass(src, s, se, w, n, h, bias, delta, first, todo, cps, e);
      if rc != 0 { return; }
      GoodRound(cps, n, e);
      e := e.(delta := delta + 1);
      delta := delta + 1;
      n := n + 1;
    }
    GoodFacts(cps, n, 0, e);
    Finished(cps, n, e);
    return 0, e;
  }

  /** uv__idna_toascii_label. */
  method LabelToAscii(src: seq<byte>, s: nat, se: nat, w: Writer) returns (rc: int)
    requires s <= se <= |src| && se - s <= INT_MAX && w.Valid()
    modifies w`d, w`text, w.dst
    ensures w.Valid()
    ensures rc == UV_EINVAL <==> All(src[s..se]).None?
    ensures rc == UV_E2BIG <==> All(src[s..se]).Some? && TooBig(All(src[s..se]).value)
    ensures rc >= 0 || rc == UV_EINVAL || rc == UV_E2BIG
    ensures rc >= 0 ==> old(w.text) <= w.text && LabelText(All(src[s..se]).value, w.text[|old(w.text)|..])
  {
    hide Good, Run, PunyDecode, All, TooBig, LabelText, Ascii, Kept;
    var ok, h, todo := CountPass(src, s, se);
    if !ok { return UV_EINVAL; }
    ghost var cps := All(src[s..se]).value;
    ghost var e := StartOf(cps);
    if todo > 0 { w.PutXn(); }
    AsciiPass(src, s, se, w, h, cps);
    KeptAscii(cps);
    if todo == 0 {
      PlainLabel(cps);
      return h;
    }
    if h > 0 { w.Put(0x2D); }
    ghost var head := w.text;
    assert head == old(w.text) + (XN + Ascii(e.basic) + Dash(e.basic));
    rc, e := InsertAll(src, s, se, w, h, todo, cps);
    if rc != 0 { return; }
    assert w.text[|old(w.text)|..] == XN + Ascii(e.basic) + Dash(e.basic) + e.digits;
  }

  // ---------- names ----------

  /** The label separators. */
  predicate IsDot(c: int) { c == 0x2E || c == 0x3002 || c == 0xFF0E || c == 0xFF61 }

  /** The labels of a name. */
  function Split(cps: seq<nat>): (r: seq<seq<nat>>)
    ensures |r| >= 1
  {
    if cps == [] then [[]]
    else
      var e := |cps| - 1;
      var r := Split(cps[..e]);
      if IsDot(cps[e]) then r + [[]] else r[..|r| - 1] + [r[|r| - 1] + [cps[e]]]
  }

  /** The parts, with dots between them. */
  function Join(parts: seq<seq<byte>>): seq<byte> {
    if parts == [] then []
    else if |parts| == 1 then parts[0]
    else Join(parts[..|parts| - 1]) + [0x2E] + parts[|parts| - 1]
  }

  /** Each part is the ASCII form of its label. */
  predicate Spelled(labels: seq<seq<nat>>, parts: seq<seq<byte>>) {
    |parts| == |labels| && forall i :: 0 <= i < |labels| ==> LabelText(labels[i], parts[i])
  }

  function AsciiLabels(labels: seq<seq<nat>>): seq<seq<byte>> {
    seq(|labels|, i requires 0 <= i < |labels| => AsciiLabel(labels[i]))
  }

  /** The ASCII form of a name. */
  function NameText(src: seq<byte>): seq<byte>
    requires All(src).Some?
  {
    Join(AsciiLabels(Split(All(src).value)))
  }

  /** The code points of src before its first character that is refused. */
  function Readable(src: seq<byte>): seq<nat>
    decreases |src|
  {
    if src == [] then []
    else match Decode(src) case None => [] case Some(r) => [r.0] + Readable(src[r.1..])
  }

  /** The labels that are looked at: all of a well-formed name, and otherwise those
      that a dot ends before the first refused character. */
  function SeenLabels(src: seq<byte>): seq<seq<nat>> {
    var r := Split(Readable(src));
    if All(src).Some? then r else r[..|r| - 1]
  }

  /** Some label that is looked at needs a delta of more than 32 bits. */
  predicate SomeTooBig(src: seq<byte>) {
    !NoneBig(SeenLabels(src))
  }

  predicate NoneBig(labels: seq<seq<nat>>) {
    forall i :: 0 <= i < |labels| ==> !TooBig(labels[i])
  }

  lemma {:induction false} SpelledIs(labels: seq<seq<nat>>, parts: seq<seq<byte>>)
    requires Spelled(labels, parts)
    ensures parts == AsciiLabels(labels)
  {
    hide AsciiLabel;
    forall i | 0 <= i < |labels| ensures parts[i] == AsciiLabels(labels)[i] {
      assert LabelText(labels[i], parts[i]);
    }
  }

  /** A scan reads the front of what is readable. */
  lemma {:induction false} ScansReadable(src: seq<byte>, p: nat, q: nat, cps: seq<nat>)
    requires p <= q <= |src| && Scans(src, |src|, p, q, cps)
    ensures Readable(src[p..]) == cps + Readable(src[q..])
    decreases |cps|
  {
    hide Decode;
    if cps == [] {
      assert cps + Readable(src[q..]) == Readable(src[q..]);
    } else {
      assert src[p..|src|] == src[p..];
      var r := Decode(src[p..]).value;
      ScansReadable(src, p + r.1, q, cps[1..]);
      assert src[p..][r.1..] == src[p + r.1..];
      assert [cps[0]] + (cps[1..] + Readable(src[q..])) == cps + Readable(src[q..]);
    }
  }

  lemma {:induction false} AllReadable(s: seq<byte>)
    requires All(s).Some?
    ensures Readable(s) == All(s).value
    decreases |s|
  {
    hide Decode;
    if s != [] { AllReadable(s[Decode(s).value.1..]); }
  }

  /** What follows does not change the labels that a dot has ended. */
  lemma {:induction false} SplitPrefix(a: seq<nat>, b: seq<nat>)
    ensures var r, t := Split(a), Split(a + b); |t| >= |r| && t[..|r| - 1] == r[..|r| - 1]
    decreases |b|
  {
    hide Split;
    if b == [] {
      assert a + b == a;
    } else {
      var e := |b| - 1;
      SplitPrefix(a, b[..e]);
      SplitMore(a + b[..e], b[e]);
      assert a + b == (a + b[..e]) + [b[e]];
    }
  }

  /** A refused character behind labels that all fit. */
  lemma {:induction false} StoppedFits(src: seq<byte>, st: nat, done: seq<nat>, labels: seq<seq<nat>>, lab: seq<nat>)
    requires st < |src| && Scans(src, |src|, 0, st, done) && Decode(src[st..]).None? && All(src).None?
    requires Split(done) == labels + [lab] && NoneBig(labels)
    ensures !SomeTooBig(src)
  {
    hide Decode, Scans, Split, All, TooBig;
    ScansReadable(src, 0, st, done);
    assert src[0..] == src && done + [] == done;
    assert (labels + [lab])[..|labels|] == labels;
  }

  /** A dot behind a label that does not fit. */
  lemma {:induction false} DottedTooBig(src: seq<byte>, si: nat, done: seq<nat>, labels: seq<seq<nat>>, lab: seq<nat>)
    requires si <= |src| && Scans(src, |src|, 0, si, done) && Split(done) == labels + [lab] + [[]] && TooBig(lab)
    ensures SomeTooBig(src)
  {
    hide Decode, Scans, Split, All, TooBig;
    ScansReadable(src, 0, si, done);
    assert src[0..] == src;
    SplitPrefix(done, Readable(src[si..]));
    var r, t := Split(done), Split(Readable(src));
    var k := |labels|;
    assert r[..k + 1][k] == lab && t[..k + 1][k] == lab;
    assert SeenLabels(src)[k] == lab;
  }

  /** The labels of a well-formed name. */
  lemma {:induction false} WholeName(src: seq<byte>, labels: seq<seq<nat>>, lab: seq<nat>)
    requires All(src).Some? && Split(All(src).value) == labels + [lab] && NoneBig(labels)
    ensures SomeTooBig(src) <==> TooBig(lab)
  {
    hide Split, All, TooBig, Readable;
    AllReadable(src);
    assert (labels + [lab])[|labels|] == lab;
    forall i | 0 <= i < |labels| ensures (labels + [lab])[i] == labels[i] {
    }
  }

  /** The characters of src[p..q] are cps, as read in src[..pe]. */
  predicate Scans(src: seq<byte>, pe: nat, p: nat, q: nat, cps: seq<nat>)
    requires p <= q <= pe <= |src|
    decreases |cps|
  {
    if cps == [] then p == q
    else
      p < q && Decode(src[p..pe]).Some? &&
      var r := Decode(src[p..pe]).value;
      r.0 == cps[0] && p + r.1 <= q && Scans(src, pe, p + r.1, q, cps[1..])
  }

  lemma {:induction false} ScansMore(src: seq<byte>, pe: nat, p: nat, q: nat, cps: seq<nat>)
    requires p <= q < pe <= |src| && Scans(src, pe, p, q, cps) && Decode(src[q..pe]).Some?
    ensures var r := Decode(src[q..pe]).value; q + r.1 <= pe && Scans(src, pe, p, q + r.1, cps + [r.0])
    decreases |cps|
  {
    var r := Decode(src[q..pe]).value;
    if cps == [] {
      assert (cps + [r.0])[1..] == [];
    } else {
      ScansMore(src, pe, p + Decode(src[p..pe]).value.1, q, cps[1..]);
      assert (cps + [r.0])[1..] == cps[1..] + [r.0];
    }
  }

  /** A scan reads the same characters when the text ends where it stopped. */
  lemma {:induction false} ScansAll(src: seq<byte>, pe: nat, p: nat, q: nat, cps: seq<nat>)
    requires p <= q <= pe <= |src| && Scans(src, pe, p, q, cps)
    ensures All(src[p..q]) == Some(cps)
    decreases |cps|
  {
    hide Decode;
    if cps != [] {
      var r := Decode(src[p..pe]).value;
      assert src[p..pe][..q - p] == src[p..q];
      DecodePrefix(src[p..pe], q - p);
      ScansAll(src, pe, p + r.1, q, cps[1..]);
      assert src[p..q][r.1..] == src[p + r.1..q];
      assert [cps[0]] + cps[1..] == cps;
    }
  }

  /** A refusal anywhere refuses the whole text. */
  lemma {:induction false} ScansNone(src: seq<byte>, pe: nat, p: nat, q: nat, cps: seq<nat>)
    requires p <= q < pe <= |src| && Scans(src, pe, p, q, cps) && Decode(src[q..pe]).None?
    ensures All(src[p..pe]).None?
    decreases |cps|
  {
    if cps != [] {
      var r := Decode(src[p..pe]).value;
      ScansNone(src, pe, p + r.1, q, cps[1..]);
      assert src[p..pe][r.1..] == src[p + r.1..pe];
    }
  }

  lemma {:induction false} SpelledMore(labels: seq<seq<nat>>, parts: seq<seq<byte>>, lab: seq<nat>, part: seq<byte>)
    requires Spelled(labels, parts) && LabelText(lab, part)
    ensures Spelled(labels + [lab], parts + [part])
  {
    forall i | 0 <= i < |labels| + 1 ensures LabelText((labels + [lab])[i], (parts + [part])[i]) {
      if i < |labels| { assert LabelText(labels[i], parts[i]); }
    }
  }

  lemma {:induction false} EmptyLabel()
    ensures LabelText([], []) && !TooBig([])
  {
  }

  /** Join with a dot after every part. */
  function Dotted(parts: seq<seq<byte>>): seq<byte> {
    if parts == [] then [] else Dotted(parts[..|parts| - 1]) + parts[|parts| - 1] + [0x2E]
  }

  lemma {:induction false} JoinLast(parts: seq<seq<byte>>, last: seq<byte>)
    ensures Join(parts + [last]) == Dotted(parts) + last
    ensures parts != [] ==> Dotted(parts) == Join(parts) + [0x2E]
  {
    if parts == [] {
      assert parts + [last] == [last];
    } else {
      var e := |parts| - 1;
      assert (parts + [last])[..|parts|] == parts;
      assert parts[..e] + [parts[e]] == parts;
      JoinLast(parts[..e], parts[e]);
    }
  }

  lemma {:induction false} DottedMore(parts: seq<seq<byte>>, part: seq<byte>)
    ensures Dotted(parts + [part]) == Dotted(parts) + part + [0x2E]
  {
    assert (parts + [part])[..|parts|] == parts;
  }

  lemma {:induction false} ScansHere(src: seq<byte>, pe: nat, p: nat)
    requires p <= pe <= |src|
    ensures Scans(src, pe, p, p, [])
  {
  }

  lemma {:induction false} StartName(src: seq<byte>)
    ensures Scans(src, |src|, 0, 0, [])
    ensures Split([]) == [[]] && Spelled([], []) && Dotted([]) == []
  {
  }

  lemma {:induction false} SplitMore(done: seq<nat>, c: nat)
    ensures var r := Split(done);
            Split(done + [c]) == if IsDot(c) then r + [[]] else r[..|r| - 1] + [r[|r| - 1] + [c]]
  {
    assert (done + [c])[..|done|] == done;
  }

  lemma {:induction false} NoneHere(src: seq<byte>, p: nat, lab: seq<nat>)
    requires p <= |src| && All(src[p..p]) == Some(lab)
    ensures lab == []
  {
  }

  /** A label and the dot after it. */
  method DottedLabel(src: seq<byte>, s: nat, st: nat, w: Writer, ghost lab: seq<nat>, ghost labels: seq<seq<nat>>,
                     ghost parts: seq<seq<byte>>) returns (rc: int, ghost parts': seq<seq<byte>>)
    requires s <= st <= |src| <= INT_MAX && w.Valid() && All(src[s..st]) == Some(lab)
    requires Spelled(labels, parts) && w.text == Dotted(parts)
    modifies w`d, w`text, w.dst
    ensures w.Valid()
    ensures rc >= 0 ==> Spelled(labels + [lab], parts') && w.text == Dotted(parts')
    ensures rc < 0 ==> rc == UV_E2BIG
    ensures rc < 0 <==> TooBig(lab)
  {
    hide All, LabelText, TooBig, Spelled, Dotted;
    ghost var before := w.text;
    rc := LabelToAscii(src, s, st, w);
    parts' := parts;
    if rc < 0 { return; }
    ghost var part := w.text[|before|..];
    parts' := parts + [part];
    w.Put(0x2E);
    SpelledMore(labels, parts, lab, part);
    DottedMore(parts, part);
  }

  /** The loop of uv__idna_toascii: every label that a dot ends. */
  method DottedLabels(src: seq<byte>, w: Writer) returns (rc: int, s: nat, ghost labels: seq<seq<nat>>, ghost lab: seq<nat>, ghost parts: seq<seq<byte>>)
    requires 0 < |src| <= INT_MAX && w.Valid() && w.text == []
    modifies w`d, w`text, w.dst
    ensures w.Valid() && s <= |src|
    ensures rc == 0 || (rc == UV_EINVAL && All(src).None? && !SomeTooBig(src)) || (rc == UV_E2BIG && SomeTooBig(src))
    ensures rc == 0 ==> NoneBig(labels) && All(src).Some? && Split(All(src).value) == labels + [lab] && All(src[s..]) == Some(lab)
    ensures rc == 0 ==> Spelled(labels, parts) && w.text == Dotted(parts)
  {
    hide All, Decode, LabelText, TooBig, Spelled, Dotted, Scans, Split, SomeTooBig;
    var se := |src|;
    var si := 0;
    s := 0;
    ghost var done: seq<nat> := [];
    rc, labels, lab, parts := 0, [], [], [];
    StartName(src);
    while si < se
      invariant s <= si <= se && w.Valid()
      invariant Scans(src, se, 0, si, done) && Scans(src, se, s, si, lab)
      invariant Split(done) == labels + [lab] && Spelled(labels, parts) && w.text == Dotted(parts) && NoneBig(labels)
    {
      var st := si;
      var c;
      c, si := Decode1(src, si, se);
      if c == -1 {
        ScansNone(src, se, 0, st, done);
        assert src[0..se] == src && src[st..se] == src[st..];
        StoppedFits(src, st, done, labels, lab);
        return UV_EINVAL, s, labels, lab, parts;
      }
      ScansMore(src, se, 0, st, done);
      SplitMore(done, c);
      done := done + [c];
      if !IsDot(c) {
        ScansMore(src, se, s, st, lab);
        lab := lab + [c];
        continue;
      }
      ScansAll(src, se, s, st, lab);
      rc, parts := DottedLabel(src, s, st, w, lab, labels, parts);
      if rc < 0 {
        DottedTooBig(src, si, done, labels, lab);
        return rc, s, labels, lab, parts;
      }
      rc := 0;
      labels, lab := labels + [lab], [];
      s := si;
      ScansHere(src, se, s);
    }
    ScansAll(src, se, 0, se, done);
    ScansAll(src, se, s, se, lab);
    assert src[0..se] == src && src[s..se] == src[s..];
  }

  /** uv__idna_toascii: r bytes with their terminating zero, or an error. */
  method ToAscii(src: seq<byte>, dst: array<byte>, de: nat) returns (r: int)
    requires |src| <= INT_MAX && de <= dst.Length
    modifies dst
    ensures r == UV_E2BIG <==> SomeTooBig(src)
    ensures r == UV_EINVAL <==>
              !SomeTooBig(src) && (src == [] || All(src).None? || |NameText(src)| >= de)
    ensures r != UV_E2BIG && r != UV_EINVAL ==>
              r == |NameText(src)| + 1 <= de && dst[..r - 1] == NameText(src) && dst[r - 1] == 0
    ensures dst[de..] == old(dst[de..])
  {
    hide All, LabelText, TooBig, Spelled, Dotted, Join, Split, SomeTooBig, AsciiLabels;
    if |src| == 0 {
      EmptyName(src);
      return UV_EINVAL;
    }
    var w := new Writer(dst, 0, de);
    assert w.before[de..] == old(dst[de..]);
    ghost var labels, lab, parts;
    var s;
    r, s, labels, lab, parts := DottedLabels(src, w);
    if r < 0 { return; }
    WholeName(src, labels, lab);
    ghost var last: seq<byte> := [];
    if s < |src| {
      assert src[s..|src|] == src[s..];
      ghost var before := w.text;
      r := LabelToAscii(src, s, |src|, w);
      if r < 0 { return; }
      last := w.text[|before|..];
    } else {
      assert src[s..] == src[s..s];
      NoneHere(src, s, lab);
      EmptyLabel();
    }
    SpelledMore(labels, parts, lab, last);
    SpelledIs(labels + [lab], parts + [last]);
    JoinLast(parts, last);
    assert w.text == NameText(src);
    if w.d >= de { return UV_EINVAL; }
    dst[w.d] := 0;
    r := w.d + 1;
  }

  lemma {:induction false} EmptyName(src: seq<byte>)
    requires src == []
    ensures !SomeTooBig(src)
  {
    assert Split([]) == [[]];
    assert SeenLabels(src) == [[]];
  }
}
