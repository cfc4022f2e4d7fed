/**
 The encoder of section 6.3 of RFC 3492 on sample (M) of section 7.1: its six
 insertions one by one, with the deltas, biases and digits of each.
 */
module PunycodeSample {
  import opened Bytes
  import opened Punycode
  import opened Idna
  import opened Utf8
  import opened PunycodeParameters

  /** How many of the first k code points are at most n. */
  function AtMost(cps: seq<nat>, n: nat, k: nat): nat
    requires k <= |cps|
  {
    if k == 0 then 0 else AtMost(cps, n, k - 1) + if cps[k - 1] <= n then 1 else 0
  }

  lemma {:induction false} KeptCount(cps: seq<nat>, n: nat, j: nat, k: nat)
    requires k <= j && k <= |cps|
    ensures |Kept(cps[..k], n, j)| == AtMost(cps, n, k)
  {
    if k > 0 {
      assert cps[..k][..k - 1] == cps[..k - 1];
      KeptCount(cps, n, j, k - 1);
    }
  }

  lemma {:induction false} RankIs(cps: seq<nat>, n: nat, j: nat)
    requires j <= |cps|
    ensures Rank(cps, n, j) == AtMost(cps, n, j)
  {
    KeptCount(cps, n, j, j);
  }

  /** The code point at e is one to insert, and before the one at j. */
  predicate InsertedBefore(cps: seq<nat>, e: nat, n: nat, j: nat)
    requires e < |cps|
  {
    cps[e] >= INITIAL_N && (cps[e] < n || (cps[e] == n && e < j))
  }

  /** The least code point is inserted first, from the initial state. */
  lemma {:induction false} FirstOut(cps: seq<nat>, j: nat, basic: nat)
    requires j < |cps| && cps[j] >= INITIAL_N && |Kept(cps, 128, 0)| == basic
    requires forall e :: 0 <= e < |cps| ==> !InsertedBefore(cps, e, cps[j], j)
    ensures Before(cps, cps[j], j).None? && Written(cps, cps[j], j) == [] && BiasAt(cps, cps[j], j) == INITIAL_BIAS
    ensures |Kept(cps, cps[j], j)| == basic
    ensures Delta(cps, j) == (cps[j] - INITIAL_N) * (basic + 1) + AtMost(cps, cps[j], j)
  {
    hide Kept;
    var r := Before(cps, cps[j], j);
    assert r.Some? ==> InsertedBefore(cps, r.value, cps[j], j);
    KeptLast(cps, cps[j], j);
    RankIs(cps, cps[j], j);
  }

  /** The code point at j comes next after the one at b. */
  predicate NextAfter(cps: seq<nat>, b: nat, n: nat, j: nat)
    requires b < |cps|
  {
    && InsertedBefore(cps, b, n, j)
    && forall e :: 0 <= e < |cps| && e != b && InsertedBefore(cps, e, n, j) ==> InsertedBefore(cps, e, cps[b], b)
  }

  lemma {:induction false} BeforeIs(cps: seq<nat>, b: nat, n: nat, j: nat)
    requires b < |cps| && NextAfter(cps, b, n, j)
    ensures Before(cps, n, j) == Some(b)
  {
    BeforeLast(cps, n, j, b);
    var a := Before(cps, n, j).value;
    assert InsertedBefore(cps, a, n, j);
  }

  /** Every other one is inserted in the state that its predecessor has left. */
  lemma {:induction false} NextOut(cps: seq<nat>, b: nat, j: nat)
    requires b < |cps| && j < |cps| && cps[b] >= INITIAL_N && cps[j] >= INITIAL_N && NextAfter(cps, b, cps[j], j)
    ensures Before(cps, cps[j], j) == Some(b)
    ensures |Kept(cps, cps[j], j)| == |Kept(cps, cps[b], b)| + 1
    ensures Written(cps, cps[j], j) == Written(cps, cps[b], b) + Digits(Delta(cps, b), BASE, BiasAt(cps, cps[b], b))
    ensures BiasAt(cps, cps[j], j) == Adapt(Delta(cps, b), |Kept(cps, cps[b], b)| + 1, Before(cps, cps[b], b).None?)
    ensures Delta(cps, j) == (cps[j] - cps[b]) * (|Kept(cps, cps[b], b)| + 2) + AtMost(cps, cps[j], j) - AtMost(cps, cps[b], b) - 1
  {
    hide Kept, Before, NextAfter;
    BeforeIs(cps, b, cps[j], j);
    KeptLast(cps, cps[j], j);
    KeptInsert(cps, cps[b], b);
    RankIs(cps, cps[j], j);
    RankIs(cps, cps[b], b);
  }

  /** With the last one the whole is written. */
  lemma {:induction false} LastOut(cps: seq<nat>, b: nat)
    requires b < |cps| && cps[b] >= INITIAL_N && NextAfter(cps, b, 0x110000, 0)
    ensures Written(cps, 0x110000, 0) == Written(cps, cps[b], b) + Digits(Delta(cps, b), BASE, BiasAt(cps, cps[b], b))
  {
    hide NextAfter;
    BeforeIs(cps, b, 0x110000, 0);
  }

  /** The ASCII code points among the first e + 1. */
  lemma {:induction false} KeptOne(cps: seq<nat>, e: nat)
    requires e < |cps|
    ensures e == 0 ==> Kept(cps[..e], 128, 0) == []
    ensures Kept(cps[..e + 1], 128, 0) == Kept(cps[..e], 128, 0) + (if cps[e] < 128 then [cps[e]] else [])
    ensures e + 1 == |cps| ==> cps[..e + 1] == cps
  {
    assert cps[..e + 1][..e] == cps[..e];
  }

  // ---------- steps of the arithmetic ----------

  lemma {:induction false} DivIs(a: nat, y: nat, q: nat)
    requires y > 0 && q * y <= a < q * y + y
    ensures a / y == q
  {
    Unique(a / y, q, y, a);
  }

  lemma {:induction false} Unique(p: nat, q: nat, y: nat, a: nat)
    requires y > 0 && p * y <= a < p * y + y && q * y <= a < q * y + y
    ensures p == q
  {
    if p < q { Apart(p, q, y); }
    if q < p { Apart(q, p, y); }
  }

  lemma {:induction false} Apart(p: nat, q: nat, y: nat)
    requires p < q
    ensures p * y + y <= q * y
  {
    assert q * y == p * y + (q - p) * y;
    TimesAtLeast(y, q - p);
  }

  lemma {:induction false} DigitMore(q: nat, k: nat, bias: nat, t: nat, x: nat, q': nat)
    requires t == Threshold(k, bias) && q == t + x + q' * (BASE - t) && x < BASE - t && q >= t
    ensures Digits(q, k, bias) == [Alphabet(t + x)] + Digits(q', k + BASE, bias)
  {
    hide Alphabet, Low, High, Threshold;
    LowHighIs(q, t, x, q');
  }

  lemma {:induction false} LowHighIs(q: nat, t: nat, x: nat, q': nat)
    requires 1 <= t <= 26 && q == t + x + q' * (36 - t) && x < 36 - t && q >= t
    ensures Low(q, t) == t + x && High(q, t) == q'
  {
    var y := 36 - t;
    DivIs(q - t, y, q');
    ModIs(q - t, y, q', x);
  }

  lemma {:induction false} ModIs(a: nat, y: nat, q: nat, x: nat)
    requires y > 0 && a == q * y + x && x < y && a / y == q
    ensures a % y == x
  {
    assert a == a / y * y + a % y;
  }

  lemma {:induction false} DigitLast(q: nat, k: nat, bias: nat)
    requires q < Threshold(k, bias)
    ensures Digits(q, k, bias) == [Alphabet(q)]
  {
    hide Alphabet;
  }

  // ---------- sample (M): 3B-ww4c5e180e575a65lsy2b ----------

  const SENSEI: seq<nat> := [0x33, 0x5E74, 0x42, 0x7D44, 0x91D1, 0x516B, 0x5148, 0x751F]

  lemma {:induction false} SenseiBasic()
    ensures Kept(SENSEI, 128, 0) == [0x33, 0x42]
  {
    hide Kept;
    KeptOne(SENSEI, 0);
    KeptOne(SENSEI, 1);
    KeptOne(SENSEI, 2);
    KeptOne(SENSEI, 3);
    KeptOne(SENSEI, 4);
    KeptOne(SENSEI, 5);
    KeptOne(SENSEI, 6);
    KeptOne(SENSEI, 7);
  }

  lemma {:induction false} SenseiRank1()
    ensures AtMost(SENSEI, 0x5148, 6) == 2
  {
    assert AtMost(SENSEI, 0x5148, 1) == 1;
    assert AtMost(SENSEI, 0x5148, 2) == 1;
    assert AtMost(SENSEI, 0x5148, 3) == 2;
    assert AtMost(SENSEI, 0x5148, 4) == 2;
    assert AtMost(SENSEI, 0x5148, 5) == 2;
  }

  lemma {:induction false} SenseiDigits1()
    ensures Digits(62042, 36, 72) == [0x77, 0x77, 0x34, 0x63]
  {
    DigitMore(62042, 36, 72, 1, 21, 1772);
    DigitMore(1772, 72, 72, 1, 21, 50);
    DigitMore(50, 108, 72, 26, 4, 2);
    DigitLast(2, 144, 72);
    assert Digits(2, 144, 72) == [0x63];
    assert Digits(50, 108, 72) == [0x34, 0x63];
    assert Digits(1772, 72, 72) == [0x77, 0x34, 0x63];
  }

  lemma {:induction false} SenseiBias1()
    ensures Adapt(62042, 3, true) == 27
  {
    DivIs(62042, 700, 88);
    DivIs(88, 3, 29);
    DivIs(4212, 155, 27);
  }

  lemma {:induction false} SenseiOut1()
    ensures |Kept(SENSEI, 0x5148, 6)| == 2 && BiasAt(SENSEI, 0x5148, 6) == 72 && Delta(SENSEI, 6) == 62042
    ensures Before(SENSEI, 0x5148, 6).None?
    ensures Written(SENSEI, 0x5148, 6) == []
  {
    hide Kept, Before, BiasAt, Delta, Written, Adapt, AtMost, Digits;
    SenseiBasic();
    SenseiRank1();
    FirstOut(SENSEI, 6, 2);
  }

  lemma {:induction false} SenseiRank2()
    ensures AtMost(SENSEI, 0x516B, 5) == 2
  {
    assert AtMost(SENSEI, 0x516B, 1) == 1;
    assert AtMost(SENSEI, 0x516B, 2) == 1;
    assert AtMost(SENSEI, 0x516B, 3) == 2;
    assert AtMost(SENSEI, 0x516B, 4) == 2;
  }

  lemma {:induction false} SenseiDigits2()
    ensures Digits(139, 36, 27) == [0x35, 0x65]
  {
    DigitMore(139, 36, 27, 9, 22, 4);
    DigitLast(4, 72, 27);
    assert Digits(4, 72, 27) == [0x65];
  }

  lemma {:induction false} SenseiBias2()
    ensures Adapt(139, 4, false) == 24
  {
    DivIs(139, 2, 69);
    DivIs(69, 4, 17);
    DivIs(3096, 124, 24);
  }

  lemma {:induction false} SenseiOut2()
    ensures |Kept(SENSEI, 0x516B, 5)| == 3 && BiasAt(SENSEI, 0x516B, 5) == 27 && Delta(SENSEI, 5) == 139
    ensures !Before(SENSEI, 0x516B, 5).None?
    ensures Written(SENSEI, 0x516B, 5) == [0x77, 0x77, 0x34, 0x63]
  {
    hide Kept, Before, BiasAt, Delta, Written, Adapt, AtMost, Digits;
    SenseiOut1();
    SenseiRank1();
    SenseiRank2();
    SenseiDigits1();
    SenseiBias1();
    NextOut(SENSEI, 6, 5);
  }

  lemma {:induction false} SenseiRank3()
    ensures AtMost(SENSEI, 0x5E74, 1) == 1
  {
  }

  lemma {:induction false} SenseiDigits3()
    ensures Digits(16683, 36, 24) == [0x31, 0x38, 0x30, 0x65]
  {
    DigitMore(16683, 36, 24, 12, 15, 694);
    DigitMore(694, 72, 24, 26, 8, 66);
    DigitMore(66, 108, 24, 26, 0, 4);
    DigitLast(4, 144, 24);
    assert Digits(4, 144, 24) == [0x65];
    assert Digits(66, 108, 24) == [0x30, 0x65];
    assert Digits(694, 72, 24) == [0x38, 0x30, 0x65];
  }

  lemma {:induction false} SenseiBias3()
    ensures Adapt(16683, 5, false) == 67
  {
    DivIs(16683, 2, 8341);
    DivIs(8341, 5, 1668);
    DivIs(10009, 35, 285);
    DivIs(10260, 323, 31);
  }

  lemma {:induction false} SenseiOut3()
    ensures |Kept(SENSEI, 0x5E74, 1)| == 4 && BiasAt(SENSEI, 0x5E74, 1) == 24 && Delta(SENSEI, 1) == 16683
    ensures !Before(SENSEI, 0x5E74, 1).None?
    ensures Written(SENSEI, 0x5E74, 1) == [0x77, 0x77, 0x34, 0x63, 0x35, 0x65]
  {
    hide Kept, Before, BiasAt, Delta, Written, Adapt, AtMost, Digits;
    SenseiOut2();
    SenseiRank2();
    SenseiRank3();
    SenseiDigits2();
    SenseiBias2();
    NextOut(SENSEI, 5, 1);
  }

  lemma {:induction false} SenseiRank4()
    ensures AtMost(SENSEI, 0x751F, 7) == 5
  {
    assert AtMost(SENSEI, 0x751F, 1) == 1;
    assert AtMost(SENSEI, 0x751F, 2) == 2;
    assert AtMost(SENSEI, 0x751F, 3) == 3;
    assert AtMost(SENSEI, 0x751F, 4) == 3;
    assert AtMost(SENSEI, 0x751F, 5) == 3;
    assert AtMost(SENSEI, 0x751F, 6) == 4;
  }

  lemma {:induction false} SenseiDigits4()
    ensures Digits(34821, 36, 67) == [0x35, 0x37, 0x35, 0x61]
  {
    DigitMore(34821, 36, 67, 1, 30, 994);
    DigitMore(994, 72, 67, 5, 28, 31);
    DigitMore(31, 108, 67, 26, 5, 0);
    DigitLast(0, 144, 67);
    assert Digits(0, 144, 67) == [0x61];
    assert Digits(31, 108, 67) == [0x35, 0x61];
    assert Digits(994, 72, 67) == [0x37, 0x35, 0x61];
  }

  lemma {:induction false} SenseiBias4()
    ensures Adapt(34821, 6, false) == 82
  {
    DivIs(34821, 2, 17410);
    DivIs(17410, 6, 2901);
    DivIs(20311, 35, 580);
    DivIs(580, 35, 16);
    DivIs(576, 54, 10);
  }

  lemma {:induction false} SenseiOut4()
    ensures |Kept(SENSEI, 0x751F, 7)| == 5 && BiasAt(SENSEI, 0x751F, 7) == 67 && Delta(SENSEI, 7) == 34821
    ensures !Before(SENSEI, 0x751F, 7).None?
    ensures Written(SENSEI, 0x751F, 7) == [0x77, 0x77, 0x34, 0x63, 0x35, 0x65, 0x31, 0x38, 0x30, 0x65]
  {
    hide Kept, Before, BiasAt, Delta, Written, Adapt, AtMost, Digits;
    SenseiOut3();
    SenseiRank3();
    SenseiRank4();
    SenseiDigits3();
    SenseiBias3();
    NextOut(SENSEI, 1, 7);
  }

  lemma {:induction false} SenseiRank5()
    ensures AtMost(SENSEI, 0x7D44, 3) == 3
  {
    assert AtMost(SENSEI, 0x7D44, 1) == 1;
    assert AtMost(SENSEI, 0x7D44, 2) == 2;
  }

  lemma {:induction false} SenseiDigits5()
    ensures Digits(14592, 36, 82) == [0x36, 0x35, 0x6C]
  {
    DigitMore(14592, 36, 82, 1, 31, 416);
    DigitMore(416, 72, 82, 1, 30, 11);
    DigitLast(11, 108, 82);
    assert Digits(11, 108, 82) == [0x6C];
    assert Digits(416, 72, 82) == [0x35, 0x6C];
  }

  lemma {:induction false} SenseiBias5()
    ensures Adapt(14592, 7, false) == 67
  {
    DivIs(14592, 2, 7296);
    DivIs(7296, 7, 1042);
    DivIs(8338, 35, 238);
    DivIs(8568, 276, 31);
  }

  lemma {:induction false} SenseiOut5()
    ensures |Kept(SENSEI, 0x7D44, 3)| == 6 && BiasAt(SENSEI, 0x7D44, 3) == 82 && Delta(SENSEI, 3) == 14592
    ensures !Before(SENSEI, 0x7D44, 3).None?
    ensures Written(SENSEI, 0x7D44, 3) == [0x77, 0x77, 0x34, 0x63, 0x35, 0x65, 0x31, 0x38, 0x30, 0x65, 0x35, 0x37,
                                           0x35, 0x61]
  {
    hide Kept, Before, BiasAt, Delta, Written, Adapt, AtMost, Digits;
    SenseiOut4();
    SenseiRank4();
    SenseiRank5();
    SenseiDigits4();
    SenseiBias4();
    NextOut(SENSEI, 7, 3);
  }

  lemma {:induction false} SenseiRank6()
    ensures AtMost(SENSEI, 0x91D1, 4) == 4
  {
    assert AtMost(SENSEI, 0x91D1, 1) == 1;
    assert AtMost(SENSEI, 0x91D1, 2) == 2;
    assert AtMost(SENSEI, 0x91D1, 3) == 3;
  }

  lemma {:induction false} SenseiDigits6()
    ensures Digits(42088, 36, 67) == [0x73, 0x79, 0x32, 0x62]
  {
    DigitMore(42088, 36, 67, 1, 17, 1202);
    DigitMore(1202, 72, 67, 5, 19, 38);
    DigitMore(38, 108, 67, 26, 2, 1);
    DigitLast(1, 144, 67);
    assert Digits(1, 144, 67) == [0x62];
    assert Digits(38, 108, 67) == [0x32, 0x62];
    assert Digits(1202, 72, 67) == [0x79, 0x32, 0x62];
  }

  lemma {:induction false} SenseiOut6()
    ensures |Kept(SENSEI, 0x91D1, 4)| == 7 && BiasAt(SENSEI, 0x91D1, 4) == 67 && Delta(SENSEI, 4) == 42088
    ensures !Before(SENSEI, 0x91D1, 4).None?
    ensures Written(SENSEI, 0x91D1, 4) == [0x77, 0x77, 0x34, 0x63, 0x35, 0x65, 0x31, 0x38, 0x30, 0x65, 0x35, 0x37,
                                           0x35, 0x61, 0x36, 0x35, 0x6C]
  {
    hide Kept, Before, BiasAt, Delta, Written, Adapt, AtMost, Digits;
    SenseiOut5();
    SenseiRank5();
    SenseiRank6();
    SenseiDigits5();
    SenseiBias5();
    NextOut(SENSEI, 3, 4);
  }

  lemma {:induction false} SenseiWritten()
    ensures Written(SENSEI, 0x110000, 0) == [0x77, 0x77, 0x34, 0x63, 0x35, 0x65, 0x31, 0x38, 0x30, 0x65, 0x35, 0x37,
                                             0x35, 0x61, 0x36, 0x35, 0x6C, 0x73, 0x79, 0x32, 0x62]
  {
    hide Kept, Before, BiasAt, Delta, Written, Adapt, AtMost, Digits;
    SenseiOut6();
    SenseiDigits6();
    LastOut(SENSEI, 4);
  }

  /** xn--3B-ww4c5e180e575a65lsy2b. */
  const SENSEI_LABEL: seq<byte> :=
    [0x78, 0x6E, 0x2D, 0x2D] + [0x33, 0x42, 0x2D]
    + [0x77, 0x77, 0x34, 0x63, 0x35, 0x65, 0x31, 0x38, 0x30, 0x65, 0x35, 0x37, 0x35, 0x61, 0x36, 0x35, 0x6C, 0x73,
       0x79, 0x32, 0x62]

  lemma {:induction false} SenseiLabel()
    ensures AsciiLabel(SENSEI) == SENSEI_LABEL
  {
    hide Kept, Written;
    SenseiBasic();
    SenseiWritten();
    assert SENSEI[1] >= 128;
  }

  /** 3B-ww4c5e180e575a65lsy2b as a label, an ideographic full stop, and jp. */
  lemma {:induction false} SenseiName()
    ensures var src := TextOf(SENSEI + [0x3002] + [0x6A, 0x70]);
            && All(src).Some?
            && NameText(src) == SENSEI_LABEL + [0x2E, 0x6A, 0x70]
  {
    hide All, TextOf, NameText, AsciiLabel, SENSEI, SENSEI_LABEL;
    SenseiLabel();
    SenseiScalars();
    TwoLabels(SENSEI, 0x3002, [0x6A, 0x70]);
    PlainLabelIs([0x6A, 0x70]);
    DotAndTwo(SENSEI_LABEL, AsciiLabel([0x6A, 0x70]));
  }

  lemma {:induction false} SenseiScalars()
    ensures forall i :: 0 <= i < |SENSEI| ==> IsScalar(SENSEI[i]) && !EndsLabel(SENSEI[i])
  {
  }

  lemma {:induction false} DotAndTwo(x: seq<byte>, y: seq<byte>)
    requires |y| == 2
    ensures x + [0x2E] + y == x + [0x2E, y[0], y[1]]
  {
  }
}
