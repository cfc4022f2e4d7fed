/**
 What the encoder and the decoder share, each stated on its own: the parameters,
 digits and thresholds of section 5 of RFC 3492, the adaptation of section 6.1 in
 those parameters, and the characters that end a label.
 */
module PunycodeParameters {
  import opened Bytes
  import opened Punycode
  import opened Idna
  import opened Utf8

  // ---------- section 5: the parameters ----------

  const BASE: nat := 36
  const TMIN: nat := 1
  const TMAX: nat := 26
  const SKEW: nat := 38
  const DAMP: nat := 700
  const INITIAL_BIAS: nat := 72
  const INITIAL_N: nat := 128

  /** The digits by value. */
  const DIGITS: string := "abcdefghijklmnopqrstuvwxyz0123456789"

  lemma {:induction false} AlphabetIs(q: nat)
    requires q < BASE
    ensures |DIGITS| == BASE && Alphabet(q) == DIGITS[q] as int
  {
    if q < 26 { LetterIs(q); }
  }

  lemma {:induction false} LetterIs(q: nat)
    requires q < 26
    ensures DIGITS[q] as int == 0x61 + q
  {
  }

  /** Letters are digits in either case; nothing else than letters and digits is. */
  lemma {:induction false} DigitValueIs(c: byte, q: nat)
    requires q < BASE
    ensures DigitValue(c) == Some(q) <==> c == DIGITS[q] as int || (q < 26 && c + 0x20 == DIGITS[q] as int)
  {
    AlphabetIs(q);
  }

  lemma {:induction false} ThresholdIs(k: nat, bias: nat)
    ensures k <= bias + TMIN ==> Threshold(k, bias) == TMIN
    ensures k >= bias + TMAX ==> Threshold(k, bias) == TMAX
    ensures bias + TMIN < k < bias + TMAX ==> Threshold(k, bias) == k - bias
  {
  }

  // ---------- section 6.1: the adaptation ----------

  /** d divided n times by base - tmin. */
  function Scaled(d: nat, n: nat): nat {
    if n == 0 then d else Scaled(d / (BASE - TMIN), n - 1)
  }

  /** The most that is not divided again. */
  const SMALL: nat := (BASE - TMIN) * TMAX / 2

  function Damped(delta: nat, points: nat, first: bool): nat
    requires points >= 1
  {
    var d := if first then delta / DAMP else delta / 2;
    DivBelow(d, points);
    d + d / points
  }

  /** The adapted bias counts the divisions that make the damped delta small, and
      says how large what is left is. */
  lemma {:induction false} AdaptIs(delta: nat, points: nat, first: bool) returns (n: nat)
    requires points >= 1
    ensures var d := Damped(delta, points, first);
            && Scaled(d, n) <= SMALL && (forall i: nat :: i < n ==> Scaled(d, i) > SMALL)
            && Adapt(delta, points, first) == BASE * n + (BASE - TMIN + 1) * Scaled(d, n) / (Scaled(d, n) + SKEW)
  {
    n := LoopIs(Damped(delta, points, first), 0);
  }

  lemma {:induction false} LoopIs(d: nat, k: nat) returns (n: nat)
    ensures Scaled(d, n) <= SMALL && (forall i: nat :: i < n ==> Scaled(d, i) > SMALL)
    ensures AdaptLoop(d, k) == k + BASE * n + (BASE - TMIN + 1) * Scaled(d, n) / (Scaled(d, n) + SKEW)
    decreases d
  {
    if d > SMALL {
      var m := LoopIs(d / 35, k + 36);
      n := m + 1;
      forall i: nat | i < n ensures Scaled(d, i) > SMALL {
        if i > 0 { assert Scaled(d, i) == Scaled(d / 35, i - 1); }
      }
    } else {
      n := 0;
    }
  }

  // ---------- whole names ----------

  /** The four characters that end a label: full stop, ideographic full stop, and the
      fullwidth and halfwidth forms. */
  predicate EndsLabel(c: nat) { c in [0x2E, 0x3002, 0xFF0E, 0xFF61] }

  /** A name splits at each of the four and nowhere else. */
  lemma {:induction false} SplitAt(a: seq<nat>, c: nat, b: seq<nat>)
    requires EndsLabel(c)
    ensures Idna.Split(a + [c] + b) == Idna.Split(a) + Idna.Split(b)
    decreases |b|
  {
    hide Idna.Split, EndsLabel;
    if b == [] {
      assert a + [c] + b == a + [c];
      SplitMore(a, c);
      SplitNone();
      DotIs(c);
    } else {
      var e := |b| - 1;
      SplitAt(a, c, b[..e]);
      assert a + [c] + b == (a + [c] + b[..e]) + [b[e]] && b == b[..e] + [b[e]];
      SplitMore(a + [c] + b[..e], b[e]);
      SplitMore(b[..e], b[e]);
      LastOfBoth(Idna.Split(a), Idna.Split(b[..e]), b[e]);
    }
  }

  lemma {:induction false} DotIs(c: nat)
    ensures EndsLabel(c) <==> IsDot(c)
  {
  }

  lemma {:induction false} SplitNone()
    ensures Idna.Split([]) == [[]]
  {
  }

  lemma {:induction false} LastOfBoth(x: seq<seq<nat>>, y: seq<seq<nat>>, c: nat)
    requires |x| >= 1 && |y| >= 1
    ensures (x + y) + [[]] == x + (y + [[]])
    ensures (x + y)[..|x + y| - 1] + [(x + y)[|x + y| - 1] + [c]] == x + (y[..|y| - 1] + [y[|y| - 1] + [c]])
  {
  }

  lemma {:induction false} OneLabel(a: seq<nat>)
    requires forall i :: 0 <= i < |a| ==> !EndsLabel(a[i])
    ensures Idna.Split(a) == [a]
  {
    hide Idna.Split, EndsLabel;
    if a == [] {
      SplitNone();
    } else {
      var e := |a| - 1;
      OneLabel(a[..e]);
      assert a[..e] + [a[e]] == a;
      SplitMore(a[..e], a[e]);
      DotIs(a[e]);
    }
  }

  /** The forms of the labels are joined by full stops. */
  lemma {:induction false} JoinAt(a: seq<seq<byte>>, b: seq<seq<byte>>)
    requires a != [] && b != []
    ensures Idna.Join(a + b) == Idna.Join(a) + [0x2E] + Idna.Join(b)
    decreases |b|
  {
    var e := |b| - 1;
    assert (a + b)[..|a + b| - 1] == a + b[..e];
    if e == 0 {
      assert a + b[..0] == a;
    } else {
      JoinAt(a, b[..e]);
    }
  }

  /** The UTF-8 text of a name. */
  function TextOf(cps: seq<nat>): seq<byte>
    requires forall i :: 0 <= i < |cps| ==> IsScalar(cps[i])
  {
    if cps == [] then []
    else
      assert IsScalar(cps[0]);
      Encode(cps[0]) + TextOf(cps[1..])
  }

  lemma {:induction false} AllOf(cps: seq<nat>)
    requires forall i :: 0 <= i < |cps| ==> IsScalar(cps[i])
    ensures All(TextOf(cps)) == Some(cps)
  {
    hide Encode, Decode;
    if cps != [] {
      var t := TextOf(cps);
      DecodeEncode(cps[0], TextOf(cps[1..]));
      AllOf(cps[1..]);
      assert t[Width(cps[0])..] == TextOf(cps[1..]);
      assert [cps[0]] + cps[1..] == cps;
    }
  }

  /** The ASCII form of a name of two labels, whichever dot is between them. */
  lemma {:induction false} TwoLabels(a: seq<nat>, c: nat, b: seq<nat>)
    requires forall i :: 0 <= i < |a| ==> IsScalar(a[i]) && !EndsLabel(a[i])
    requires forall i :: 0 <= i < |b| ==> IsScalar(b[i]) && !EndsLabel(b[i])
    requires EndsLabel(c)
    ensures var src := TextOf(a + [c] + b);
            All(src).Some? && NameText(src) == AsciiLabel(a) + [0x2E] + AsciiLabel(b)
  {
    hide Idna.Split, AsciiLabel, All, TextOf, EndsLabel;
    DotIs(c);
    AllOf(a + [c] + b);
    SplitAt(a, c, b);
    OneLabel(a);
    OneLabel(b);
    assert Idna.Split(a + [c] + b) == [a, b];
    assert AsciiLabels([a, b]) == [AsciiLabel(a)] + [AsciiLabel(b)];
    JoinAt([AsciiLabel(a)], [AsciiLabel(b)]);
  }

  lemma {:induction false} PlainLabelIs(a: seq<nat>)
    requires forall i :: 0 <= i < |a| ==> a[i] < INITIAL_N
    ensures |AsciiLabel(a)| == |a| && forall i :: 0 <= i < |a| ==> AsciiLabel(a)[i] == a[i]
  {
  }
}
