/**
 The UTF-8 decoder of idna.c (uv__utf8_decode1), its inverse on well-formed
 text, and exactly which of the sequences it accepts are well-formed.
 */
module Utf8 {
  import opened Bytes

  /** The scalar values of Unicode: code points that are not surrogates. */
  predicate IsScalar(c: int) {
    0 <= c <= 0x10FFFF && !(0xD800 <= c <= 0xDFFF)
  }

  /** The number of bytes of c in UTF-8. */
  function Width(c: nat): nat {
    if c < 0x80 then 1 else if c < 0x800 then 2 else if c < 0x10000 then 3 else 4
  }

  /** The UTF-8 form of c (section 3 of RFC 3629). */
  function Encode(c: nat): (s: seq<byte>)
    requires c <= 0x10FFFF
    ensures |s| == Width(c)
  {
    if c < 0x80 then [c]
    else if c < 0x800 then [0xC0 + c / 64, 0x80 + c % 64]
    else if c < 0x10000 then [0xE0 + c / 4096, 0x80 + c / 64 % 64, 0x80 + c % 64]
    else [0xF0 + c / 262144, 0x80 + c / 4096 % 64, 0x80 + c / 64 % 64, 0x80 + c % 64]
  }

  /** Exclusive or of two 2-bit values. */
  function Xor2(a: nat, b: nat): nat {
    (a / 2 + b / 2) % 2 * 2 + (a + b) % 2
  }

  /** 0xC0 & (b ^ c ^ d), as a value of 0 to 3. */
  function TopBits(b: byte, c: byte, d: byte): nat {
    Xor2(Xor2(b / 64, c / 64), d / 64)
  }

  /** How many bytes uv__utf8_decode1_slow takes after a lead byte a when left
      bytes remain; 0 when it refuses at once. */
  function Trail(a: byte, left: nat): (n: nat)
    ensures n <= left && n <= 3
  {
    if a > 0xF7 then 0
    else if left >= 3 && a > 0xEF then 3
    else if left >= 2 && a > 0xDF then 2
    else if left >= 1 && a > 0xBF then 1
    else 0
  }

  /** (a << 18) | (b << 12) | (c << 6) | d over the low six bits of b, c and d. */
  function Join(a: nat, b: byte, c: byte, d: byte): nat {
    a * 262144 + b % 64 * 4096 + c % 64 * 64 + d % 64
  }

  /** The least code point that needs n bytes after the lead. */
  function Least(n: nat): nat {
    if n == 3 then 0x10000 else if n == 2 then 0x800 else 0x80
  }

  /** The tests on the assembled code point. */
  function Judge(a: nat, b: byte, c: byte, d: byte, n: nat): (r: Option<(nat, nat)>)
    requires 1 <= n <= 3 && (n < 3 ==> a == 0) && (n == 1 ==> b % 64 == 0 && c % 64 < 32) && (n == 2 ==> b % 64 < 16)
    ensures r.Some? ==> r.value.1 == n + 1 && IsScalar(r.value.0) && Width(r.value.0) == r.value.1
  {
    var v := Join(a, b, c, d);
    if TopBits(b, c, d) != 2 || v < Least(n) || !IsScalar(v) then None else Some((v, n + 1))
  }

  /** What the decoder makes of the front of s: a code point and how many bytes
      it took, or a refusal. */
  function Decode(s: seq<byte>): (r: Option<(nat, nat)>)
    requires s != []
    ensures r.Some? ==> 1 <= r.value.1 <= |s| && IsScalar(r.value.0) && Width(r.value.0) == r.value.1
  {
    var a := s[0];
    var n := Trail(a, |s| - 1);
    if a < 0x80 then Some((a, 1))
    else if n == 3 then Judge(a % 8, s[1], s[2], s[3], 3)
    else if n == 2 then Judge(0, 0x80 + a % 16, s[1], s[2], 2)
    else if n == 1 then Judge(0, 0x80, 0x80 + a % 32, s[1], 1)
    else None
  }

  /** The bytes after a character do not change how it is read, as long as some
      of them could have been missing. */
  lemma {:induction false} DecodePrefix(s: seq<byte>, e: nat)
    requires s != [] && Decode(s).Some? && Decode(s).value.1 <= e <= |s|
    ensures Decode(s[..e]) == Decode(s)
  {
    hide Judge;
  }

  /** uv__utf8_decode1: the code point at p, or -1, and the moved pointer. */
  method Decode1(s: seq<byte>, p: nat, pe: nat) returns (v: int, p': nat)
    requires p < pe <= |s|
    ensures p < p' <= pe
    ensures match Decode(s[p..pe])
            case None => v == -1
            case Some(r) => v == r.0 && p' == p + r.1
  {
    var a: int := s[p];
    p' := p + 1;
    if a < 128 { return a, p'; }
    v, p' := Decode1Slow(s, p', pe, a);
  }

  /** uv__utf8_decode1_slow, after the lead byte a. */
  method Decode1Slow(s: seq<byte>, p: nat, pe: nat, lead: byte) returns (v: int, p': nat)
    requires 1 <= p <= pe <= |s| && s[p - 1] == lead >= 0x80
    ensures p <= p' <= pe
    ensures match Decode(s[p - 1..pe])
            case None => v == -1
            case Some(r) => v == r.0 && p' == p - 1 + r.1
  {
    p' := p;
    var a: nat := lead;
    if a > 0xF7 { return -1, p'; }
    var min, b, c, d;
    var left := pe - p;
    if left >= 3 && a > 0xEF {
      min := 0x10000;
      a := a % 8;
      b, c, d := s[p'], s[p' + 1], s[p' + 2];
      p' := p' + 3;
    } else if left >= 2 && a > 0xDF {
      min := 0x800;
      b := 0x80 + a % 16;
      c, d := s[p'], s[p' + 1];
      p' := p' + 2;
      a := 0;
    } else if left >= 1 && a > 0xBF {
      min := 0x80;
      b := 0x80;
      c := 0x80 + a % 32;
      d := s[p'];
      p' := p' + 1;
      a := 0;
    } else {
      return -1, p';
    }
    if TopBits(b, c, d) != 2 { return -1, p'; }
    v := Join(a, b, c, d);
    if v < min { return -1, p'; }
    if v > 0x10FFFF { return -1, p'; }
    if 0xD800 <= v <= 0xDFFF { return -1, p'; }
  }

  /** A lead or continuation byte gives back its payload and its top bits. */
  lemma {:induction false} Payload(x: nat)
    ensures x < 64 ==> (0x80 + x) % 64 == x && (0x80 + x) / 64 == 2
    ensures x < 32 ==> (0xC0 + x) % 32 == x && 0xC0 <= 0xC0 + x <= 0xDF
    ensures x < 16 ==> (0xE0 + x) % 16 == x && (0x80 + x) % 64 == x
    ensures x < 8 ==> (0xF0 + x) % 8 == x
  {
  }

  /** Well-formed text decodes: every scalar value is read back from its UTF-8 form. */
  lemma {:induction false} DecodeEncode(c: nat, rest: seq<byte>)
    requires IsScalar(c)
    ensures Decode(Encode(c) + rest) == Some((c, Width(c)))
  {
    var e, s := Encode(c), Encode(c) + rest;
    var w := Width(c);
    assert forall i :: 0 <= i < w ==> s[i] == e[i];
    if w == 2 { DecodeTwo(c, s); } else if w == 3 { DecodeThree(c, s); } else if w == 4 { DecodeFour(c, s); }
  }

  /** Three continuation bytes pass the test on the top bits. */
  lemma {:induction false} TopBitsOk(b: byte, c: byte, d: byte)
    requires b / 64 == c / 64 == d / 64 == 2
    ensures TopBits(b, c, d) == 2
  {
  }

  lemma {:induction false} JudgeOk(a: nat, b: byte, c: byte, d: byte, n: nat, v: nat)
    requires 1 <= n <= 3 && (n < 3 ==> a == 0) && (n == 1 ==> b % 64 == 0 && c % 64 < 32) && (n == 2 ==> b % 64 < 16)
    requires Join(a, b, c, d) == v && IsScalar(v) && v >= Least(n) && b / 64 == c / 64 == d / 64 == 2
    ensures Judge(a, b, c, d, n) == Some((v, n + 1))
  {
    TopBitsOk(b, c, d);
  }

  lemma {:induction false} DecodeTwo(c: nat, s: seq<byte>)
    requires IsScalar(c) && 0x80 <= c < 0x800 && |s| >= 2 && s[0] == 0xC0 + c / 64 && s[1] == 0x80 + c % 64
    ensures Decode(s) == Some((c, 2))
  {
    hide Judge, TopBits;
    var x, y := c / 64, c % 64;
    Payload(x);
    Payload(y);
    JudgeOk(0, 0x80, 0x80 + x, s[1], 1, c);
  }

  lemma {:induction false} DecodeThree(c: nat, s: seq<byte>)
    requires IsScalar(c) && 0x800 <= c < 0x10000 && |s| >= 3
    requires s[0] == 0xE0 + c / 4096 && s[1] == 0x80 + c / 64 % 64 && s[2] == 0x80 + c % 64
    ensures Decode(s) == Some((c, 3))
  {
    hide Judge, TopBits;
    var x, y, z := c / 4096, c / 64 % 64, c % 64;
    Payload(x);
    Payload(y);
    Payload(z);
    assert x * 4096 + y * 64 + z == c by { assert c / 64 / 64 == x; }
    JudgeOk(0, 0x80 + x, s[1], s[2], 2, c);
  }

  lemma {:induction false} DecodeFour(c: nat, s: seq<byte>)
    requires IsScalar(c) && 0x10000 <= c && |s| >= 4
    requires s[0] == 0xF0 + c / 262144 && s[1] == 0x80 + c / 4096 % 64 && s[2] == 0x80 + c / 64 % 64 && s[3] == 0x80 + c % 64
    ensures Decode(s) == Some((c, 4))
  {
    hide Judge, TopBits;
    var u, x, y, z := c / 262144, c / 4096 % 64, c / 64 % 64, c % 64;
    Payload(u);
    Payload(x);
    Payload(y);
    Payload(z);
    assert u * 262144 + x * 4096 + y * 64 + z == c by { assert c / 64 / 64 / 64 == u && c / 64 / 64 == c / 4096; }
    JudgeOk(u, s[1], s[2], s[3], 3, c);
  }

  /** The lead byte announces n bytes after it. */
  predicate Announces(a: byte, n: nat) {
    match n
    case 0 => a < 0x80
    case 1 => 0xC0 <= a <= 0xDF
    case 2 => 0xE0 <= a <= 0xEF
    case 3 => 0xF0 <= a <= 0xF7
    case _ => false
  }

  /** s starts with a lead byte and as many continuation bytes as that announces. */
  predicate Complete(s: seq<byte>)
    requires s != []
  {
    exists n :: 0 <= n < |s| && Announces(s[0], n) && forall i :: 1 <= i <= n ==> 0x80 <= s[i] <= 0xBF
  }

  /** The decoder tests the continuation bits of the bytes only together, and a
      sequence cut short by the end of the text is read as a shorter one.  What
      it accepts is the UTF-8 form of its result exactly when the text starts
      with a complete sequence. */
  lemma {:induction false} AcceptedIsWellFormedIff(s: seq<byte>)
    requires s != [] && Decode(s).Some?
    ensures var (c, w) := Decode(s).value; s[..w] == Encode(c) <==> Complete(s)
  {
    hide Encode, Judge;
    var (c, w) := Decode(s).value;
    TakenIsWellFormedIff(s);
    assert Trail(s[0], |s| - 1) == w - 1;
  }

  /** On a text that starts with a complete sequence the decoder accepts exactly
      the UTF-8 forms of scalar values. */
  lemma {:induction false} CompleteIsExact(s: seq<byte>)
    requires s != [] && Complete(s)
    ensures Decode(s).Some? <==> exists c :: IsScalar(c) && Encode(c) <= s
  {
    hide Encode, Judge, Complete, Decode;
    if Decode(s).Some? {
      AcceptedIsWellFormedIff(s);
      var (c, w) := Decode(s).value;
      assert IsScalar(c) && Encode(c) <= s;
    } else if exists c :: IsScalar(c) && Encode(c) <= s {
      var c: nat :| IsScalar(c) && Encode(c) <= s;
      DecodeEncode(c, s[Width(c)..]);
      assert s == Encode(c) + s[Width(c)..];
    }
  }

  /** The same for the bytes that were taken. */
  lemma {:induction false} TakenIsWellFormedIff(s: seq<byte>)
    requires s != [] && Decode(s).Some?
    ensures var (c, w) := Decode(s).value;
            s[..w] == Encode(c) <==>
              Announces(s[0], w - 1) && forall i :: 1 <= i < w ==> 0x80 <= s[i] <= 0xBF
  {
    var (c, w) := Decode(s).value;
    if Announces(s[0], w - 1) && forall i :: 1 <= i < w ==> 0x80 <= s[i] <= 0xBF {
      EncodeParts(s, c, w);
    } else {
      assert forall i :: 1 <= i < w ==> 0x80 <= Encode(c)[i] <= 0xBF;
      assert Announces(Encode(c)[0], w - 1);
      if s[..w] == Encode(c) {
        assert forall i :: 0 <= i < w ==> s[i] == Encode(c)[i];
        assert false;
      }
    }
  }

  lemma {:induction false} EncodeParts(s: seq<byte>, c: nat, w: nat)
    requires s != [] && Decode(s) == Some((c, w))
    requires Announces(s[0], w - 1) && forall i :: 1 <= i < w ==> 0x80 <= s[i] <= 0xBF
    ensures s[..w] == Encode(c)
  {
    hide Encode, TopBits;
    assert Trail(s[0], |s| - 1) == w - 1;
    if w == 1 { EncodeIs(c, s[..1]); }
    else if w == 2 { PartsTwo(c, s[..2]); }
    else if w == 3 { PartsThree(c, s[..3]); }
    else if w == 4 { PartsFour(c, s[..4]); }
  }

  lemma {:induction false} PartsTwo(c: nat, e: seq<byte>)
    requires |e| == 2 && 0xC0 <= e[0] <= 0xDF && 0x80 <= e[1] <= 0xBF && Join(0, 0x80, 0x80 + e[0] % 32, e[1]) == c
    requires 0x80 <= c <= 0x10FFFF && Width(c) == 2
    ensures e == Encode(c)
  {
    var x, y := e[0] - 0xC0, e[1] - 0x80;
    Payload(x);
    Payload(y);
    Digits2(x, y);
    EncodeIs(c, e);
  }

  lemma {:induction false} PartsThree(c: nat, e: seq<byte>)
    requires |e| == 3 && 0xE0 <= e[0] <= 0xEF && 0x80 <= e[1] <= 0xBF && 0x80 <= e[2] <= 0xBF
    requires Join(0, 0x80 + e[0] % 16, e[1], e[2]) == c && c <= 0x10FFFF && Width(c) == 3
    ensures e == Encode(c)
  {
    var x: nat, y: nat, z: nat := e[0] - 0xE0, e[1] - 0x80, e[2] - 0x80;
    Payload(x);
    Payload(y);
    Payload(z);
    Digits2(x * 64 + y, z);
    Digits2(x, y);
    assert c / 4096 == c / 64 / 64;
    EncodeIs(c, e);
  }

  lemma {:induction false} PartsFour(c: nat, e: seq<byte>)
    requires |e| == 4 && 0xF0 <= e[0] <= 0xF7 && 0x80 <= e[1] <= 0xBF && 0x80 <= e[2] <= 0xBF && 0x80 <= e[3] <= 0xBF
    requires Join(e[0] % 8, e[1], e[2], e[3]) == c && c <= 0x10FFFF && Width(c) == 4
    ensures e == Encode(c)
  {
    hide Encode;
    var u: nat, x: nat, y: nat, z: nat := e[0] - 0xF0, e[1] - 0x80, e[2] - 0x80, e[3] - 0x80;
    Payload(u);
    Payload(x);
    Payload(y);
    Payload(z);
    Digits4(u, x, y, z);
    EncodeIs(c, e);
  }

  lemma {:induction false} Digits4(u: nat, x: nat, y: nat, z: nat)
    requires x < 64 && y < 64 && z < 64
    ensures var c := u * 262144 + x * 4096 + y * 64 + z;
            c / 262144 == u && c / 4096 % 64 == x && c / 64 % 64 == y && c % 64 == z
  {
    var c := u * 262144 + x * 4096 + y * 64 + z;
    Digits2(u * 4096 + x * 64 + y, z);
    Digits2(u * 64 + x, y);
    Digits2(u, x);
    TwiceDown(c);
  }

  lemma {:induction false} TwiceDown(c: nat)
    ensures c / 4096 == c / 64 / 64 && c / 262144 == c / 64 / 64 / 64
  {
  }

  lemma {:induction false} Digits2(x: nat, y: nat)
    requires y < 64
    ensures (x * 64 + y) / 64 == x && (x * 64 + y) % 64 == y
  {
  }

  /** The bytes of a form, one by one. */
  lemma {:induction false} EncodeBytes(c: nat)
    requires c <= 0x10FFFF
    ensures var e := Encode(c);
            && |e| == Width(c)
            && (|e| == 1 ==> e[0] == c)
            && (|e| == 2 ==> e[0] == 0xC0 + c / 64 && e[1] == 0x80 + c % 64)
            && (|e| == 3 ==> e[0] == 0xE0 + c / 4096 && e[1] == 0x80 + c / 64 % 64 && e[2] == 0x80 + c % 64)
            && (|e| == 4 ==> e[0] == 0xF0 + c / 262144 && e[1] == 0x80 + c / 4096 % 64 && e[2] == 0x80 + c / 64 % 64
                             && e[3] == 0x80 + c % 64)
  {
  }

  /** Section 3 of RFC 3629 read backwards: which code point the bytes of a form give,
      from the bits behind the marks. */
  lemma {:induction false} FormMeans(c: nat)
    requires c <= 0x10FFFF
    ensures var e := Encode(c);
            && (forall i :: 1 <= i < |e| ==> 0x80 <= e[i] <= 0xBF)
            && (|e| == 1 ==> c == e[0] as int && e[0] <= 0x7F)
            && (|e| == 2 ==> c == (e[0] as int - 0xC0) * 64 + (e[1] as int - 0x80) && 0xC2 <= e[0] <= 0xDF)
            && (|e| == 3 ==> c == (e[0] as int - 0xE0) * 4096 + (e[1] as int - 0x80) * 64 + (e[2] as int - 0x80)
                             && 0xE0 <= e[0] <= 0xEF)
            && (|e| == 4 ==> c == (e[0] as int - 0xF0) * 262144 + (e[1] as int - 0x80) * 4096
                                  + (e[2] as int - 0x80) * 64 + (e[3] as int - 0x80)
                             && 0xF0 <= e[0] <= 0xF4)
  {
    hide Encode;
    EncodeBytes(c);
    FourDigits(c);
  }

  lemma {:induction false} FourDigits(c: nat)
    ensures c == c / 64 * 64 + c % 64 && c / 64 == c / 4096 * 64 + c / 64 % 64 && c / 4096 == c / 262144 * 64 + c / 4096 % 64
  {
    TwiceDown(c);
  }

  lemma {:induction false} EncodeIs(c: nat, e: seq<byte>)
    requires c <= 0x10FFFF && |e| == Width(c)
    requires |e| == 1 ==> e[0] == c
    requires |e| == 2 ==> e[0] == 0xC0 + c / 64 && e[1] == 0x80 + c % 64
    requires |e| == 3 ==> e[0] == 0xE0 + c / 4096 && e[1] == 0x80 + c / 64 % 64 && e[2] == 0x80 + c % 64
    requires |e| == 4 ==> e[0] == 0xF0 + c / 262144 && e[1] == 0x80 + c / 4096 % 64 && e[2] == 0x80 + c / 64 % 64 && e[3] == 0x80 + c % 64
    ensures e == Encode(c)
  {
  }

  /** Accepted, though ill-formed: a three-byte lead followed by two bytes that
      both start with 11. */
  lemma {:induction false} AcceptsTwoLeads(s: seq<byte>)
    requires |s| == 3 && 0xE1 <= s[0] <= 0xEC && 0xC0 <= s[1] && 0xC0 <= s[2]
    ensures var (a: int, c: int, d: int) := (s[0], s[1], s[2]);
            var v: nat := (a - 0xE0) * 4096 + (c - 0xC0) * 64 + (d - 0xC0); Decode(s) == Some((v, 3))
    ensures s != Encode(Decode(s).value.0)
  {
    hide Encode, Judge;
    JudgeLeads(s[0] - 0xE0, s[1], s[2]);
    assert s[0] % 16 == s[0] - 0xE0;
    AcceptedIsWellFormedIff(s);
    assert s[..3] == s;
  }

  lemma {:induction false} JudgeLeads(x: nat, c: byte, d: byte)
    requires 1 <= x <= 12 && 0xC0 <= c && 0xC0 <= d
    ensures var v: nat := x * 4096 + (c - 0xC0) * 64 + (d - 0xC0); Judge(0, 0x80 + x, c, d, 2) == Some((v, 3))
  {
    assert (0x80 + x) / 64 == 2 && c / 64 == 3 && d / 64 == 3;
    assert (0x80 + x) % 64 == x && c % 64 == c - 0xC0 && d % 64 == d - 0xC0;
  }

  /** Accepted, though ill-formed: a three-byte sequence cut short by the end of the text. */
  lemma {:induction false} AcceptsCutShort(s: seq<byte>)
    requires |s| == 2 && 0xE2 <= s[0] <= 0xEF && 0x80 <= s[1] <= 0xBF
    ensures var (a: int, d: int) := (s[0], s[1]); var v: nat := (a - 0xE0) * 64 + (d - 0x80); Decode(s) == Some((v, 2))
    ensures s != Encode(Decode(s).value.0)
  {
    hide Encode, Judge;
    JudgeCut(s[0] - 0xE0, s[1]);
    assert s[0] % 32 == s[0] - 0xE0;
    AcceptedIsWellFormedIff(s);
    assert s[..2] == s;
  }

  lemma {:induction false} JudgeCut(x: nat, d: byte)
    requires 2 <= x <= 15 && 0x80 <= d <= 0xBF
    ensures var v: nat := x * 64 + (d - 0x80); Judge(0, 0x80, 0x80 + x, d, 1) == Some((v, 2))
  {
    hide TopBits;
    Payload(x);
    Payload(d - 0x80);
    JudgeOk(0, 0x80, 0x80 + x, d, 1, x * 64 + (d - 0x80));
  }
}
