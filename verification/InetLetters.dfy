/**
 What the reader of IPv6 text makes of letters in either case, and the two forms
 of section 2.2 of RFC 4291 on that section's own addresses.
 */
module InetLetters {
  import opened Bytes
  import opened InetText
  import opened InetRoundTrip

  /** The same letter, one of them upper-case. */
  predicate OtherCase(a: byte, b: byte) { 0x41 <= a <= 0x5A && b == a + 0x20 }

  /** The texts differ at most in the case of letters. */
  predicate SameLetters(s: seq<byte>, t: seq<byte>) {
    |s| == |t| && forall i :: 0 <= i < |s| ==> s[i] == t[i] || OtherCase(s[i], t[i]) || OtherCase(t[i], s[i])
  }

  lemma {:induction false} SameTail(s: seq<byte>, t: seq<byte>)
    requires SameLetters(s, t) && s != []
    ensures SameLetters(s[1..], t[1..]) && XDigitOf(s[0]) == XDigitOf(t[0])
    ensures s[0] == COLON || s[0] == DOT || 0x30 <= s[0] <= 0x39 ==> s[0] == t[0]
    ensures t[0] == COLON || t[0] == DOT || 0x30 <= t[0] <= 0x39 ==> s[0] == t[0]
  {
  }

  lemma {:induction false} Read4Same(s: seq<byte>, t: seq<byte>, done: seq<byte>, cur: Option<byte>)
    requires SameLetters(s, t)
    ensures Read4(s, done, cur) == Read4(t, done, cur)
    decreases |s|
  {
    hide SameLetters;
    if s == [] {
      NoneSame(s, t);
    } else {
      NoneSame(s, t);
      SameTail(s, t);
      if DigitOf(s[0]).Some? {
        var nw := (if cur.Some? then cur.value else 0) * 10 + DigitOf(s[0]).value;
        if nw <= 255 { Read4Same(s[1..], t[1..], done, Some(nw)); }
      } else if s[0] == DOT && cur.Some? {
        Read4Same(s[1..], t[1..], done + [cur.value], None);
      }
    }
  }

  lemma {:induction false} NoneSame(s: seq<byte>, t: seq<byte>)
    requires SameLetters(s, t)
    ensures |s| == |t|
  {
  }

  /** Readers that agree but for the case of letters in their tokens. */
  predicate SameReader(st: Reader, st': Reader) {
    st' == st.(token := st'.token) && SameLetters(st.token, st'.token)
  }

  predicate SameOutcome(r: Option<Reader>, r': Option<Reader>) {
    (r.None? && r'.None?) || (r.Some? && r'.Some? && r'.value == r.value.(token := r'.value.token))
  }

  lemma {:induction false} Read6Same(s: seq<byte>, t: seq<byte>, st: Reader, st': Reader)
    requires Fits(st) && SameReader(st, st') && SameLetters(s, t)
    ensures Fits(st') && SameOutcome(Read6(s, st), Read6(t, st'))
    decreases |s|
  {
    hide Read6, SameLetters, Read4;
    NoneSame(s, t);
    if s == [] {
      Read6None(st);
      Read6None(st');
    } else {
      SameTail(s, t);
      Read6One(s, st);
      Read6One(t, st');
      if XDigitOf(s[0]).Some? {
        if st.seen < 4 {
          var v := st.val * 16 + XDigitOf(s[0]).value;
          Read6Same(s[1..], t[1..], st.(seen := st.seen + 1, val := v), st'.(seen := st.seen + 1, val := v));
        }
      } else if s[0] == COLON {
        if st.seen == 0 {
          if st.colon.None? {
            var c := Some(|st.bytes|);
            Read6Same(s[1..], t[1..], st.(colon := c, token := s[1..]), st'.(colon := c, token := t[1..]));
          }
        } else if |s| > 1 && |st.bytes| + 2 <= 16 {
          Read6Same(s[1..], t[1..], Store(st).(token := s[1..]), Store(st').(token := t[1..]));
        }
      } else if s[0] == DOT {
        Read4Same(st.token, st'.token, [], None);
      }
    }
  }

  /** inet_pton6 takes letters in either case for the same digits, and refuses
      other letters in either case. */
  lemma {:induction false} CaseIgnored(s: seq<byte>, t: seq<byte>)
    requires SameLetters(s, t)
    ensures Parse6(s) == Parse6(t)
  {
    hide Read6;
    if s != [] { SameTail(s, t); }
    if |s| > 1 { SameTail(s[1..], t[1..]); }
    var s', t' := if s != [] && s[0] == COLON then s[1..] else s, if s != [] && s[0] == COLON then t[1..] else t;
    Read6Same(s', t', Reader([], None, 0, 0, s'), Reader([], None, 0, 0, t'));
  }

  // ---------- the addresses of section 2.2 of RFC 4291 ----------

  /** The words that are left to write, one by one. */
  lemma {:induction false} WordText(w: seq<nat>, r: Run, tail: seq<byte>, i: nat)
    requires |w| == 8 && i < 8 && r.base + r.len <= 8 && !InRun(r, i) && !(i == 6 && Embedded(w, r))
    ensures TextFrom(w, r, tail, i) == (if i != 0 then [COLON] else []) + (HexText(w[i]) + TextFrom(w, r, tail, i + 1))
  {
  }

  lemma {:induction false} HexWord(a: nat, b: nat, c: nat, d: nat)
    requires 0 < a < 16 && b < 16 && c < 16 && d < 16
    ensures HexText(((a * 16 + b) * 16 + c) * 16 + d) == [HexDigit(a), HexDigit(b), HexDigit(c), HexDigit(d)]
  {
    var w := (a * 16 + b) * 16;
    assert HexText(a * 16 + b) == [HexDigit(a)] + [HexDigit(b)];
    assert HexText(w + c) == HexText(a * 16 + b) + [HexDigit(c)];
    assert HexText((w + c) * 16 + d) == HexText(w + c) + [HexDigit(d)];
  }

  /** 2001:DB8:0:0:8:800:200C:417A. */
  const UNICAST: seq<byte> := [0x20, 0x01, 0x0D, 0xB8, 0, 0, 0, 0, 0, 8, 8, 0, 0x20, 0x0C, 0x41, 0x7A]

  /** The ends of its text, :8:800:200c:417a and :db8::8:800:200c:417a. */
  const LOW_END: seq<byte> :=
    [0x3A, 0x38] + ([0x3A, 0x38, 0x30, 0x30] + ([0x3A, 0x32, 0x30, 0x30, 0x63] + [0x3A, 0x34, 0x31, 0x37, 0x61]))

  const LOW_MIDDLE: seq<byte> := [0x3A, 0x64, 0x62, 0x38] + ([0x3A] + LOW_END)

  /** 2001:db8::8:800:200c:417a and 2001:DB8::8:800:200C:417A. */
  const LOWER: seq<byte> := [0x32, 0x30, 0x30, 0x31] + LOW_MIDDLE

  const UPPER: seq<byte> :=
    [0x32, 0x30, 0x30, 0x31] + ([0x3A, 0x44, 0x42, 0x38] + ([0x3A]
      + ([0x3A, 0x38] + ([0x3A, 0x38, 0x30, 0x30] + ([0x3A, 0x32, 0x30, 0x30, 0x43] + [0x3A, 0x34, 0x31, 0x37, 0x41])))))

  lemma {:induction false} UnicastWords()
    ensures WordsOf(UNICAST) == [0x2001, 0xDB8, 0, 0, 8, 0x800, 0x200C, 0x417A]
  {
  }

  lemma {:induction false} UnicastText()
    ensures Text6(UNICAST, Run(2, 2)) == LOWER
  {
    hide WordsOf, TextFrom, HexText;
    UnicastWords();
    var w, r, tail := WordsOf(UNICAST), Run(2, 2), Text4(UNICAST[12..]);
    HexWord(2, 0, 0, 1);
    UnicastMiddle(w, tail);
    WordText(w, r, tail, 0);
  }

  lemma {:induction false} UnicastMiddle(w: seq<nat>, tail: seq<byte>)
    requires w == [0x2001, 0xDB8, 0, 0, 8, 0x800, 0x200C, 0x417A]
    ensures TextFrom(w, Run(2, 2), tail, 1) == LOW_MIDDLE
  {
    hide TextFrom, HexText;
    var r := Run(2, 2);
    ShortHex();
    UnicastEnd(w, tail);
    InTheRun(w, r, tail);
    WordText(w, r, tail, 1);
    ColonJoin(HexText(w[1]), TextFrom(w, r, tail, 2));
  }

  lemma {:induction false} ColonJoin(a: seq<byte>, b: seq<byte>)
    ensures [COLON] + (a + b) == ([COLON] + a) + b
  {
  }

  lemma {:induction false} UnicastEnd(w: seq<nat>, tail: seq<byte>)
    requires w == [0x2001, 0xDB8, 0, 0, 8, 0x800, 0x200C, 0x417A]
    ensures TextFrom(w, Run(2, 2), tail, 4) == LOW_END
  {
    hide TextFrom, HexText;
    var r := Run(2, 2);
    HexWord(2, 0, 0, 12);
    HexWord(4, 1, 7, 10);
    ShortHex();
    TextEnd(w, r, tail);
    for i := 4 to 8
      invariant true
    {
    }
    WordText(w, r, tail, 7);
    WordText(w, r, tail, 6);
    WordText(w, r, tail, 5);
    WordText(w, r, tail, 4);
    ColonJoin(HexText(w[7]), []);
    ColonJoin(HexText(w[6]), TextFrom(w, r, tail, 7));
    ColonJoin(HexText(w[5]), TextFrom(w, r, tail, 6));
    ColonJoin(HexText(w[4]), TextFrom(w, r, tail, 5));
    assert [0x34, 0x31, 0x37, 0x61] + [] == [0x34, 0x31, 0x37, 0x61];
  }

  lemma {:induction false} ShortHex()
    ensures HexText(0xDB8) == [0x64, 0x62, 0x38] && HexText(0x800) == [0x38, 0x30, 0x30] && HexText(8) == [0x38]
  {
    assert HexText(0xDB) == [0x64] + [0x62];
    assert HexText(0xDB8) == HexText(0xDB) + [0x38];
    assert HexText(0x80) == [0x38] + [0x30];
    assert HexText(0x800) == HexText(0x80) + [0x30];
  }

  lemma {:induction false} TextEnd(w: seq<nat>, r: Run, tail: seq<byte>)
    requires |w| == 8 && r.base + r.len < 8
    ensures TextFrom(w, r, tail, 8) == []
  {
  }

  /** A run of two words at 2 is one colon. */
  lemma {:induction false} InTheRun(w: seq<nat>, r: Run, tail: seq<byte>)
    requires |w| == 8 && r == Run(2, 2)
    ensures TextFrom(w, r, tail, 2) == [COLON] + TextFrom(w, r, tail, 4)
  {
    assert TextFrom(w, r, tail, 3) == [] + TextFrom(w, r, tail, 4);
  }

  /** The unicast address is read from its upper-case and its lower-case text, and
      the latter is what is written. */
  lemma {:induction false} UnicastExample()
    ensures Parse6(UPPER) == Some(UNICAST)
    ensures Parse6(LOWER) == Some(UNICAST)
    ensures IsBest(WordsOf(UNICAST), Run(2, 2)) && Text6(UNICAST, Run(2, 2)) == LOWER
  {
    hide Parse6, WordsOf, Text6;
    UnicastText();
    UnicastWords();
    BestAtTwo(WordsOf(UNICAST));
    RoundTrip6(UNICAST, Run(2, 2));
    UpperSame();
    CaseIgnored(UPPER, LOWER);
  }

  lemma {:induction false} UpperSame()
    ensures SameLetters(UPPER, LOWER)
  {
  }

  lemma {:induction false} BestAtTwo(w: seq<nat>)
    requires |w| == 8 && w[2] == w[3] == 0 && forall i :: 0 <= i < 8 && i != 2 && i != 3 ==> w[i] != 0
    ensures IsBest(w, Run(2, 2))
  {
    forall b: nat, n: nat | n >= 2 && IsRun(w, Run(b, n)) ensures n < 2 || (n == 2 && 2 <= b) {
      assert w[b] == 0 && w[b + 1] == 0;
      var k := if n > 2 then b + 2 else b;
      assert w[k] == 0;
    }
  }

  // ---------- an address with an IPv4 address in it ----------

  /** 129.144.52.38. */
  const QUAD: seq<byte> := [0x31, 0x32, 0x39] + [0x2E] + [0x31, 0x34, 0x34] + [0x2E] + [0x35, 0x32] + [0x2E] + [0x33, 0x38]

  lemma {:induction false} QuadExample()
    ensures Text4([129, 144, 52, 38]) == QUAD && Read4(QUAD, [], None) == Some([129, 144, 52, 38])
  {
    hide Read4;
    ThreeDigits(1, 2, 9);
    ThreeDigits(1, 4, 4);
    TwoDigits(5, 2);
    TwoDigits(3, 8);
    RoundTrip4([129, 144, 52, 38]);
  }

  lemma {:induction false} TwoDigits(a: nat, b: nat)
    requires 0 < a < 10 && b < 10
    ensures Decimal(a * 10 + b) == [0x30 + a, 0x30 + b]
  {
    assert Decimal(a * 10 + b) == Decimal(a) + [0x30 + b];
  }

  lemma {:induction false} ThreeDigits(a: nat, b: nat, c: nat)
    requires 0 < a < 10 && b < 10 && c < 10
    ensures Decimal((a * 10 + b) * 10 + c) == [0x30 + a, 0x30 + b, 0x30 + c]
  {
    TwoDigits(a, b);
    assert Decimal((a * 10 + b) * 10 + c) == Decimal(a * 10 + b) + [0x30 + c];
  }

  /** ::FFFF:129.144.52.38. */
  const MAPPED: seq<byte> := [0, 0, 0, 0, 0, 0, 0, 0, 0, 0, 0xFF, 0xFF, 129, 144, 52, 38]

  /** The mapped address is written with a run of five zero words and the IPv4 form
      behind it, and read from that text with either case of ffff. */
  lemma {:induction false} MappedExample()
    ensures IsBest(WordsOf(MAPPED), Run(0, 5))
    ensures Text6(MAPPED, Run(0, 5)) == [0x3A, 0x3A, 0x66, 0x66, 0x66, 0x66, 0x3A] + QUAD
    ensures Parse6([0x3A, 0x3A, 0x66, 0x66, 0x66, 0x66, 0x3A] + QUAD) == Some(MAPPED)
    ensures Parse6([0x3A, 0x3A, 0x46, 0x46, 0x46, 0x46, 0x3A] + QUAD) == Some(MAPPED)
  {
    hide Parse6, WordsOf, TextFrom;
    MappedWords();
    assert MAPPED[12..] == [129, 144, 52, 38];
    QuadExample();
    MappedText(WordsOf(MAPPED));
    RoundTrip6(MAPPED, Run(0, 5));
    CaseIgnored([0x3A, 0x3A, 0x66, 0x66, 0x66, 0x66, 0x3A] + QUAD, [0x3A, 0x3A, 0x46, 0x46, 0x46, 0x46, 0x3A] + QUAD);
  }

  lemma {:induction false} MappedWords()
    ensures WordsOf(MAPPED) == [0, 0, 0, 0, 0, 0xFFFF, 0x8190, 0x3426]
    ensures IsBest(WordsOf(MAPPED), Run(0, 5))
  {
    hide WordsOf;
    MappedList();
    var w := WordsOf(MAPPED);
    forall b: nat, n: nat | n >= 2 && IsRun(w, Run(b, n)) ensures n < 5 || (n == 5 && 0 <= b) {
      var k := if b <= 5 < b + n then 5 else if b <= 6 < b + n then 6 else b;
      assert w[k] == 0;
    }
  }

  lemma {:induction false} MappedList()
    ensures WordsOf(MAPPED) == [0, 0, 0, 0, 0, 0xFFFF, 0x8190, 0x3426]
  {
  }

  lemma {:induction false} MappedText(w: seq<nat>)
    requires w == [0, 0, 0, 0, 0, 0xFFFF, 0x8190, 0x3426]
    ensures TextFrom(w, Run(0, 5), QUAD, 0) == [0x3A, 0x3A, 0x66, 0x66, 0x66, 0x66, 0x3A] + QUAD
  {
    hide HexText, QUAD;
    var r := Run(0, 5);
    HexWord(15, 15, 15, 15);
    assert TextFrom(w, r, QUAD, 6) == [0x3A] + QUAD;
    assert TextFrom(w, r, QUAD, 5) == [0x3A] + (HexText(0xFFFF) + ([0x3A] + QUAD));
    assert TextFrom(w, r, QUAD, 4) == [] + TextFrom(w, r, QUAD, 5);
    assert TextFrom(w, r, QUAD, 3) == [] + TextFrom(w, r, QUAD, 4);
    assert TextFrom(w, r, QUAD, 2) == [] + TextFrom(w, r, QUAD, 3);
    assert TextFrom(w, r, QUAD, 1) == [] + TextFrom(w, r, QUAD, 2);
    assert TextFrom(w, r, QUAD, 0) == [0x3A] + TextFrom(w, r, QUAD, 1);
  }

  // ---------- what is no IPv4 address ----------

  /** The text of the octets of a from k on. */
  function OctetsFrom(a: seq<byte>, k: nat): seq<byte>
    requires k < |a| == 4
    decreases 4 - k
  {
    Decimal(a[k]) + if k == 3 then [] else [DOT] + OctetsFrom(a, k + 1)
  }

  /** The text that the reader has still to see, with the octet it is in. */
  function Whole(s: seq<byte>, cur: Option<byte>): seq<byte> {
    match cur case None => s case Some(c) => Decimal(c) + s
  }

  /** What has been read of an accepted text is what would have been written. */
  lemma {:induction false} ReadIsWritten(s: seq<byte>, done: seq<byte>, cur: Option<byte>, a: seq<byte>)
    requires Read4(s, done, cur) == Some(a) && |done| <= 3
    ensures |a| == 4 && done <= a
    ensures Whole(s, cur) == OctetsFrom(a, |done|)
    decreases |s|
  {
    hide Decimal, Whole, OctetsFrom;
    if s == [] {
      WholeEnd(done, cur.value);
    } else if DigitOf(s[0]).Some? {
      var d := DigitOf(s[0]).value;
      var nw := (if cur.Some? then cur.value else 0) * 10 + d;
      ReadIsWritten(s[1..], done, Some(nw), a);
      WholeDigit(s, cur, d, nw);
    } else {
      ReadIsWritten(s[1..], done + [cur.value], None, a);
      WholeDot(s, cur.value, a, |done|);
    }
  }

  lemma {:induction false} WholeEnd(done: seq<byte>, c: byte)
    requires |done| == 3
    ensures Whole([], Some(c)) == OctetsFrom(done + [c], 3)
  {
    hide Decimal;
  }

  lemma {:induction false} WholeDigit(s: seq<byte>, cur: Option<byte>, d: nat, nw: byte)
    requires s != [] && d < 10 && s[0] == 0x30 + d && nw == (if cur.Some? then cur.value else 0) * 10 + d && cur != Some(0)
    ensures Whole(s, cur) == Whole(s[1..], Some(nw))
  {
    hide Decimal;
    DigitBehind(if cur.Some? then cur.value else 0, d);
    OneOff(s, if cur.Some? then Decimal(cur.value) else []);
  }

  lemma {:induction false} WholeDot(s: seq<byte>, c: byte, a: seq<byte>, k: nat)
    requires s != [] && s[0] == DOT && |a| == 4 && k < 3 && a[k] == c && Whole(s[1..], None) == OctetsFrom(a, k + 1)
    ensures Whole(s, Some(c)) == OctetsFrom(a, k)
  {
    hide Decimal;
    OneOff(s, []);
  }

  lemma {:induction false} OneOff(s: seq<byte>, a: seq<byte>)
    requires s != []
    ensures s == [s[0]] + s[1..] && a + s == (a + [s[0]]) + s[1..]
  {
  }

  lemma {:induction false} DigitBehind(c: nat, d: nat)
    requires d < 10
    ensures Decimal(c * 10 + d) == if c == 0 then [0x30 + d] else Decimal(c) + [0x30 + d]
  {
  }

  /** inet_pton4 accepts the dotted texts of addresses and nothing else: no octet may be
      missing, left empty, larger than 255 or written with a leading zero. */
  lemma {:induction false} Pton4Exact(s: seq<byte>, a: seq<byte>)
    requires |a| == 4
    ensures Read4(s, [], None) == Some(a) <==> s == Text4(a)
  {
    hide Decimal, Read4;
    RoundTrip4(a);
    if Read4(s, [], None) == Some(a) {
      ReadIsWritten(s, [], None, a);
      OctetsText(a);
    }
  }

  lemma {:induction false} OctetsText(a: seq<byte>)
    requires |a| == 4
    ensures OctetsFrom(a, 0) == Text4(a)
  {
    hide Decimal;
    var w, x, y, z := Decimal(a[0]), Decimal(a[1]), Decimal(a[2]), Decimal(a[3]);
    assert OctetsFrom(a, 3) == z + [] == z;
    assert OctetsFrom(a, 2) == y + ([DOT] + z);
    assert OctetsFrom(a, 1) == x + ([DOT] + (y + ([DOT] + z)));
    assert w + ([DOT] + (x + ([DOT] + (y + ([DOT] + z))))) == w + [DOT] + x + [DOT] + y + [DOT] + z;
  }
}
