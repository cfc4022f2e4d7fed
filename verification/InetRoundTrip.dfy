/** Reading an address inverts writing it. */
module InetRoundTrip {
  import opened Bytes
  import opened InetText

  // ---------- IPv4 ----------

  /** The decimal text of a byte is read as one octet. */
  lemma {:induction false} ReadOctet(n: byte, rest: seq<byte>, done: seq<byte>)
    requires |done| <= 3
    ensures Read4(Decimal(n) + rest, done, None) == Read4(rest, done, Some(n))
    decreases n
  {
    if n < 10 {
      assert (Decimal(n) + rest)[1..] == rest;
    } else {
      var d: byte := 0x30 + n % 10;
      var s := [d] + rest;
      ReadOctet(n / 10, s, done);
      assert Decimal(n) + rest == Decimal(n / 10) + s;
      assert s[1..] == rest;
      assert DigitOf(d) == Some(n % 10);
    }
  }

  /** A dot ends an octet. */
  lemma {:induction false} ReadDot(n: byte, rest: seq<byte>, done: seq<byte>)
    requires |done| < 3
    ensures Read4([DOT] + rest, done, Some(n)) == Read4(rest, done + [n], None)
  {
    assert ([DOT] + rest)[1..] == rest;
  }

  /** inet_pton4 inverts inet_ntop4. */
  lemma {:induction false} RoundTrip4(a: seq<byte>)
    requires |a| == 4
    ensures Read4(Text4(a), [], None) == Some(a)
  {
    hide Decimal;
    var t3 := Decimal(a[3]);
    var t2 := [DOT] + t3;
    var t1 := Decimal(a[2]) + t2;
    var t0 := [DOT] + t1;
    var s1 := Decimal(a[1]) + t0;
    var s0 := [DOT] + s1;
    assert Text4(a) == Decimal(a[0]) + s0;
    ReadOctet(a[0], s0, []);
    ReadDot(a[0], s1, []);
    ReadOctet(a[1], t0, [a[0]]);
    ReadDot(a[1], t1, [a[0]]);
    ReadOctet(a[2], t2, [a[0], a[1]]);
    ReadDot(a[2], t3, [a[0], a[1]]);
    assert t3 + [] == t3;
    ReadOctet(a[3], [], [a[0], a[1], a[2]]);
    assert [] + [a[0]] == [a[0]] && [a[0]] + [a[1]] == [a[0], a[1]] && [a[0], a[1]] + [a[2]] == [a[0], a[1], a[2]];
    assert Read4([], [a[0], a[1], a[2]], Some(a[3])) == Some([a[0], a[1], a[2]] + [a[3]]);
    assert [a[0], a[1], a[2]] + [a[3]] == a;
  }

  // ---------- the tokens of IPv6 ----------

  lemma {:induction false} HexLength(n: nat, k: nat)
    requires 1 <= k <= 4 && n < Pow16(k)
    ensures |HexText(n)| <= k
    decreases k
  {
    if n >= 16 { HexLength(n / 16, k - 1); }
  }

  lemma {:induction false} HexValue(n: nat)
    ensures n < Pow16(4) ==> |HexText(n)| <= 4 && n < Pow16(|HexText(n)|)
    decreases n
  {
    if n < Pow16(4) {
      HexLength(n, 4);
      if n >= 16 {
        HexValue(n / 16);
      }
    }
  }

  /** A word's digits are read as its value. */
  lemma {:induction false} ReadWord(n: nat, rest: seq<byte>, st: Reader)
    requires n < 0x10000 && st.seen == 0 && st.val == 0
    ensures |HexText(n)| <= 4 && n < Pow16(|HexText(n)|)
    ensures Read6(HexText(n) + rest, st) == Read6(rest, st.(seen := |HexText(n)|, val := n))
    decreases n
  {
    HexValue(n);
    if n < 16 {
      assert (HexText(n) + rest)[1..] == rest;
      assert XDigitOf(HexDigit(n)) == Some(n);
    } else {
      var d := HexDigit(n % 16);
      var s := [d] + rest;
      ReadWord(n / 16, s, st);
      assert HexText(n) + rest == HexText(n / 16) + s;
      assert s[1..] == rest && XDigitOf(d) == Some(n % 16);
      assert n / 16 * 16 + n % 16 == n;
    }
  }

  /** The value of decimal digits taken as hexadecimal ones. */
  function AsHex(n: nat): nat { if n < 10 then n else AsHex(n / 10) * 16 + n % 10 }

  lemma {:induction false} AsHexFits(n: nat, k: nat)
    requires 1 <= k <= 3 && n < (if k == 1 then 10 else if k == 2 then 100 else 1000)
    ensures |Decimal(n)| <= k && AsHex(n) < Pow16(|Decimal(n)|)
  {
    if n >= 10 { AsHexFits(n / 10, k - 1); }
  }

  /** The digits of an octet, before it is known to be one. */
  lemma {:induction false} ReadDecimal(n: nat, rest: seq<byte>, st: Reader)
    requires n < 1000 && st.seen == 0 && st.val == 0
    ensures |Decimal(n)| <= 3 && AsHex(n) < Pow16(|Decimal(n)|)
    ensures Read6(Decimal(n) + rest, st) == Read6(rest, st.(seen := |Decimal(n)|, val := AsHex(n)))
    decreases n
  {
    hide Read6;
    AsHexFits(n, 3);
    if n < 10 {
      assert (Decimal(n) + rest)[1..] == rest;
      Read6One(Decimal(n) + rest, st);
    } else {
      var d: byte := 0x30 + n % 10;
      var s := [d] + rest;
      ReadDecimal(n / 10, s, st);
      AsHexFits(n / 10, 2);
      assert Decimal(n) + rest == Decimal(n / 10) + s;
      assert s[1..] == rest && XDigitOf(d) == Some(n % 10);
      Read6One(s, st.(seen := |Decimal(n / 10)|, val := AsHex(n / 10)));
    }
  }

  /** A token that turns out to be an IPv4 address. */
  lemma {:induction false} ReadEmbedded(a: seq<byte>, st: Reader)
    requires |a| == 4 && st.seen == 0 && st.val == 0 && |st.bytes| + 4 <= 16 && st.token == Text4(a)
    ensures var r := Read6(Text4(a), st);
            r.Some? && r.value.bytes == st.bytes + a && r.value.seen == 0 && r.value.colon == st.colon
  {
    hide Decimal, Read4;
    var rest := [DOT] + Decimal(a[1]) + [DOT] + Decimal(a[2]) + [DOT] + Decimal(a[3]);
    assert Text4(a) == Decimal(a[0]) + rest;
    ReadDecimal(a[0], rest, st);
    RoundTrip4(a);
  }

  // ---------- IPv6 ----------

  /** The bytes of words lo up to hi. */
  function Part(a: seq<byte>, lo: nat, hi: nat): seq<byte>
    requires lo <= hi && 2 * hi <= |a|
  {
    a[2 * lo..2 * hi]
  }

  /** What the reader holds of words before i when word i - 1 is its pending token. */
  predicate Pending(a: seq<byte>, r: Run, i: nat, st: Reader)
    requires |a| == 16 && r.base + r.len <= 8 && 1 <= i <= 8
  {
    && st.val == WordsOf(a)[i - 1] && Fits(st) && st.seen > 0
    && if r.len > 0 && r.base + r.len < i
       then st.colon == Some(2 * r.base) && st.bytes == Part(a, 0, r.base) + Part(a, r.base + r.len, i - 1)
       else st.colon == None && st.bytes == Part(a, 0, i - 1)
  }

  /** What the reader holds inside the run: one colon of "::" has been read. */
  predicate Inside(a: seq<byte>, r: Run, st: Reader)
    requires |a| == 16 && r.base + r.len <= 8
  {
    st.val == 0 && st.seen == 0 && st.colon == None && st.bytes == Part(a, 0, r.base)
  }

  /** The reader just before the text from word i on. */
  predicate Before(a: seq<byte>, r: Run, i: nat, st: Reader)
    requires |a| == 16 && r.base + r.len <= 8 && 1 <= i <= 8
  {
    if r.base < i <= r.base + r.len then Inside(a, r, st) else Pending(a, r, i, st)
  }

  lemma {:induction false} StoreWord(a: seq<byte>, i: nat)
    requires |a| == 16 && 1 <= i <= 8
    ensures var w := WordsOf(a)[i - 1]; [w / 256, w % 256] == Part(a, i - 1, i)
  {
    var h, l := a[2 * i - 2], a[2 * i - 1];
    assert WordsOf(a)[i - 1] == Word(h, l);
    WordParts(h, l);
  }

  lemma {:induction false} WordParts(h: byte, l: byte)
    ensures Word(h, l) / 256 == h && Word(h, l) % 256 == l
  {
  }

  lemma {:induction false} PartJoin(a: seq<byte>, lo: nat, mid: nat, hi: nat)
    requires lo <= mid <= hi && 2 * hi <= |a|
    ensures Part(a, lo, mid) + Part(a, mid, hi) == Part(a, lo, hi)
  {
  }

  /** The bytes stored when the pending word is. */
  lemma {:induction false} StorePending(a: seq<byte>, r: Run, i: nat, st: Reader)
    requires |a| == 16 && r.base + r.len <= 8 && 1 <= i <= 8 && Pending(a, r, i, st)
    ensures var s := Store(st);
            && s.colon == st.colon && |st.bytes| + 2 <= 16
            && s.bytes == if r.len > 0 && r.base + r.len < i then Part(a, 0, r.base) + Part(a, r.base + r.len, i) else Part(a, 0, i)
  {
    StoreWord(a, i);
    if r.len > 0 && r.base + r.len < i {
      PartJoin(a, r.base + r.len, i - 1, i);
    } else {
      PartJoin(a, 0, i - 1, i);
    }
  }

  /** A run is zero bytes. */
  lemma {:induction false} RunBytes(a: seq<byte>, r: Run)
    requires |a| == 16 && IsRun(WordsOf(a), r)
    ensures Part(a, r.base, r.base + r.len) == Zeros(2 * r.len)
    ensures Part(a, 0, r.base) + Zeros(2 * r.len) + Part(a, r.base + r.len, 8) == a
  {
    forall k | 2 * r.base <= k < 2 * (r.base + r.len) ensures a[k] == 0 {
      assert WordsOf(a)[k / 2] == Word(a[2 * (k / 2)], a[2 * (k / 2) + 1]) == 0;
    }
  }

  /** Zeros go where "::" stood. */
  lemma {:induction false} FinishGap(a: seq<byte>, r: Run, st: Reader)
    requires |a| == 16 && IsRun(WordsOf(a), r) && r.len > 0 && st.val < 0x10000
    requires st.seen == 0 && st.colon == Some(2 * r.base) && st.bytes == Part(a, 0, r.base) + Part(a, r.base + r.len, 8)
    ensures Finish(st) == Some(a)
  {
    RunBytes(a, r);
    var t := st.bytes;
    assert |t| == 16 - 2 * r.len;
    assert t[..2 * r.base] == Part(a, 0, r.base) && t[2 * r.base..] == Part(a, r.base + r.len, 8);
  }

  lemma {:induction false} FinishStored(st: Reader)
    requires st.val < 0x10000 && st.seen > 0 && |st.bytes| + 2 <= 16
    ensures Finish(st) == Finish(Store(st))
  {
  }

  lemma {:induction false} ReadLastColon(st: Reader)
    requires Fits(st) && st.seen == 0 && st.colon == None
    ensures Read6([COLON], st) == Some(st.(colon := Some(|st.bytes|), token := []))
  {
    assert [COLON][1..] == [];
  }

  /** The end of the text: what is held gives the address. */
  lemma {:induction false} FinishWords(a: seq<byte>, r: Run, tail: seq<byte>, st: Reader)
    requires |a| == 16 && IsRun(WordsOf(a), r) && Before(a, r, 8, st)
    ensures Fits(st) && Completes(TextFrom(WordsOf(a), r, tail, 8), st, a)
  {
    hide Finish, WordsOf, Read6;
    var t := TextFrom(WordsOf(a), r, tail, 8);
    if r.base < 8 <= r.base + r.len {
      assert t == [COLON];
      ReadLastColon(st);
      var last := st.(colon := Some(|st.bytes|), token := []);
      assert last.bytes == Part(a, 0, r.base) + Part(a, 8, 8);
      FinishGap(a, r, last);
    } else {
      assert t == [];
      Read6None(st);
      StorePending(a, r, 8, st);
      FinishStored(st);
      if r.len > 0 {
        FinishGap(a, r, Store(st));
      } else {
        FinishWhole(a, Store(st));
      }
    }
  }

  lemma {:induction false} FinishWhole(a: seq<byte>, st: Reader)
    requires |a| == 16 && st.val < 0x10000 && st.seen == 0 && st.colon == None && st.bytes == Part(a, 0, 8)
    ensures Finish(st) == Some(a)
  {
    assert Part(a, 0, 8) == a;
  }

  /** Reading s from st and finishing gives a. */
  predicate Completes(s: seq<byte>, st: Reader, a: seq<byte>)
    requires Fits(st)
  {
    Read6(s, st).Some? && Finish(Read6(s, st).value) == Some(a)
  }

  /** A colon after a word stores it; the second colon of "::" marks its place. */
  lemma {:induction false} ReadColon(rest: seq<byte>, st: Reader)
    requires Fits(st) && rest != [] && |st.bytes| + 2 <= 16 && (st.seen == 0 ==> st.colon.None?)
    ensures Read6([COLON] + rest, st)
            == Read6(rest, if st.seen == 0 then st.(colon := Some(|st.bytes|), token := rest) else Store(st).(token := rest))
    ensures st.seen == 0 ==> st.val == 0
  {
    assert ([COLON] + rest)[1..] == rest;
  }

  /** The text after the start of the run is not empty. */
  lemma {:induction false} TextNotEmpty(w: seq<nat>, r: Run, tail: seq<byte>, i: nat)
    requires |w| == 8 && r.base + r.len <= 8 && r.base < i <= r.base + r.len && i <= 8
    ensures TextFrom(w, r, tail, i) != [] && TextFrom(w, r, tail, i)[0] == COLON
    decreases 8 - i
  {
    if i < 8 && InRun(r, i) { TextNotEmpty(w, r, tail, i + 1); }
  }

  /** The reader after the colon before word i. */
  predicate AtWord(a: seq<byte>, r: Run, i: nat, st: Reader)
    requires |a| == 16 && r.base + r.len <= 8 && i <= 8
  {
    && st.val == 0 && st.seen == 0
    && if r.len > 0 && r.base + r.len <= i
       then st.colon == Some(2 * r.base) && st.bytes == Part(a, 0, r.base) + Part(a, r.base + r.len, i)
       else st.colon == None && st.bytes == Part(a, 0, i)
  }

  /** The colon before word i, after which comes rest. */
  lemma {:induction false} ColonBefore(a: seq<byte>, r: Run, i: nat, st: Reader, rest: seq<byte>) returns (next: Reader)
    requires |a| == 16 && r.base + r.len <= 8 && 1 <= i < 8 && Before(a, r, i, st) && !InRun(r, i) && rest != []
    ensures Fits(st) && Fits(next) && Read6([COLON] + rest, st) == Read6(rest, next)
    ensures AtWord(a, r, i, next) && next.token == rest
  {
    hide Read6, WordsOf;
    if r.base < i <= r.base + r.len {
      ReadColon(rest, st);
      next := st.(colon := Some(|st.bytes|), token := rest);
      assert Part(a, 0, r.base) + Part(a, i, i) == Part(a, 0, r.base);
    } else {
      StorePending(a, r, i, st);
      ReadColon(rest, st);
      next := Store(st).(token := rest);
    }
  }

  /** The digits of word i. */
  lemma {:induction false} WordDigits(a: seq<byte>, r: Run, i: nat, st: Reader, rest: seq<byte>) returns (next: Reader)
    requires |a| == 16 && r.base + r.len <= 8 && i < 8 && AtWord(a, r, i, st) && !InRun(r, i)
    ensures Fits(st) && Fits(next) && Read6(HexText(WordsOf(a)[i]) + rest, st) == Read6(rest, next)
    ensures Before(a, r, i + 1, next)
  {
    var n := WordsOf(a)[i];
    ReadWord(n, rest, st);
    next := st.(seen := |HexText(n)|, val := n);
  }

  /** The IPv4 form of the last four bytes. */
  lemma {:induction false} TailCompletes(a: seq<byte>, r: Run, st: Reader)
    requires |a| == 16 && IsRun(WordsOf(a), r) && AtWord(a, r, 6, st) && Embedded(WordsOf(a), r) && !InRun(r, 6)
    requires st.token == Text4(a[12..])
    ensures Fits(st) && Completes(Text4(a[12..]), st, a)
  {
    hide Finish, WordsOf, Read6;
    ReadEmbedded(a[12..], st);
    var last := Read6(Text4(a[12..]), st).value;
    ReadBounded(Text4(a[12..]), st);
    PartJoin(a, r.base + r.len, 6, 8);
    assert Part(a, 6, 8) == a[12..];
    assert last.bytes == Part(a, 0, r.base) + Part(a, r.base + r.len, 8);
    FinishGap(a, r, last);
  }

  lemma {:induction false} ReadBounded(s: seq<byte>, st: Reader)
    requires Fits(st)
    ensures Read6(s, st).Some? ==> Read6(s, st).value.val < 0x10000
  {
  }

  /** The reader at word i > 0, whatever is left of the text. */
  lemma {:induction false} ReadFrom(a: seq<byte>, r: Run, i: nat, st: Reader)
    requires |a| == 16 && IsRun(WordsOf(a), r) && 1 <= i <= 8 && Before(a, r, i, st)
    ensures Fits(st) && Completes(TextFrom(WordsOf(a), r, Text4(a[12..]), i), st, a)
    decreases 8 - i
  {
    hide Read6, Finish, WordsOf, HexText;
    var w, tail := WordsOf(a), Text4(a[12..]);
    BeforeFits(a, r, i, st);
    if i == 8 {
      FinishWords(a, r, tail, st);
    } else if InRun(r, i) {
      var rest := TextFrom(w, r, tail, i + 1);
      TextNotEmpty(w, r, tail, i + 1);
      if i == r.base {
        StorePending(a, r, i, st);
        ReadColon(rest, st);
        ReadFrom(a, r, i + 1, Store(st).(token := rest));
      } else {
        assert [] + rest == rest;
        ReadFrom(a, r, i + 1, st);
      }
    } else if i == 6 && Embedded(w, r) {
      var next := ColonBefore(a, r, i, st, tail);
      TailCompletes(a, r, next);
    } else {
      var more := TextFrom(w, r, tail, i + 1);
      var next := ColonBefore(a, r, i, st, HexText(w[i]) + more);
      var after := WordDigits(a, r, i, next, more);
      ReadFrom(a, r, i + 1, after);
    }
  }

  lemma {:induction false} BeforeFits(a: seq<byte>, r: Run, i: nat, st: Reader)
    requires |a| == 16 && r.base + r.len <= 8 && 1 <= i <= 8 && Before(a, r, i, st)
    ensures Fits(st)
  {
  }

  /** inet_pton6 inverts inet_ntop6, whichever run of zero words is shortened. */
  lemma {:induction false} RoundTrip6(a: seq<byte>, r: Run)
    requires |a| == 16 && IsRun(WordsOf(a), r)
    ensures Parse6(Text6(a, r)) == Some(a)
  {
    hide Read6, Finish, WordsOf, HexText;
    var w, tail := WordsOf(a), Text4(a[12..]);
    var s := Text6(a, r);
    var rest := TextFrom(w, r, tail, 1);
    if r.len > 0 && r.base == 0 {
      TextNotEmpty(w, r, tail, 1);
      assert s == [COLON] + rest && s[1..] == rest;
      var st := Reader([], None, 0, 0, rest);
      ReadFrom(a, r, 1, st);
    } else {
      var st := Reader([], None, 0, 0, s);
      assert s == HexText(w[0]) + rest;
      HexFirst(w[0]);
      var next := WordDigits(a, r, 0, st, rest);
      ReadFrom(a, r, 1, next);
    }
  }

  lemma {:induction false} HexFirst(n: nat)
    ensures HexText(n)[0] != COLON
  {
    if n >= 16 { HexFirst(n / 16); }
  }
}
