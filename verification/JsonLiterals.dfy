/**
 JSON literals as sections 3 and 7 of RFC 8259 give them, each byte on its own, and
 that the parser reads them so: words, two-character escapes, \u escapes of code
 points and of surrogate pairs with digits in either case.
 */
module JsonLiterals {
  import opened Bytes
  import opened Json
  import opened JsonRoundTrip
  import Utf8
  import Wtf8

  // ---------- words ----------

  /** null, true and false. */
  lemma {:induction false} Words(f: Floats, post: seq<byte>, d: nat)
    ensures ParseValue(f, [0x6E, 0x75, 0x6C, 0x6C] + post, d) == Ok(Null, post)
    ensures ParseValue(f, [0x74, 0x72, 0x75, 0x65] + post, d) == Ok(True, post)
    ensures ParseValue(f, [0x66, 0x61, 0x6C, 0x73, 0x65] + post, d) == Ok(False, post)
  {
    hide ParseString, ParseNumber, ParseItems, ParseMembers, Skip;
    Word(NULL_TEXT, post);
    Word(TRUE_TEXT, post);
    Word(FALSE_TEXT, post);
    assert (TRUE_TEXT + post)[0] == 0x74 && (FALSE_TEXT + post)[0] == 0x66;
  }

  lemma {:induction false} Word(word: seq<byte>, post: seq<byte>)
    ensures word <= word + post && (word + post)[|word|..] == post
  {
  }

  // ---------- hexadecimal digits ----------

  /** b is the digit of value v, a letter in either case. */
  predicate IsDigit(b: byte, v: nat) {
    if v < 10 then b == 0x30 + v
    else v < 16 && (b == 0x41 + (v - 10) || b == 0x61 + (v - 10))
  }

  /** Four digits that spell u, the highest first. */
  predicate Spells(d: seq<byte>, u: nat) {
    && |d| == 4 && u < 0x10000
    && IsDigit(d[0], u / 4096) && IsDigit(d[1], u / 256 % 16) && IsDigit(d[2], u / 16 % 16) && IsDigit(d[3], u % 16)
  }

  lemma {:induction false} DigitRead(b: byte, v: nat)
    requires IsDigit(b, v)
    ensures HexDigit(b) == Some(v)
  {
  }

  lemma {:induction false} Hex4Reads(d: seq<byte>, u: nat)
    requires Spells(d, u)
    ensures Hex4(d) == u
  {
    hide HexDigit, IsDigit;
    DigitRead(d[0], u / 4096);
    DigitRead(d[1], u / 256 % 16);
    DigitRead(d[2], u / 16 % 16);
    DigitRead(d[3], u % 16);
    assert u / 256 == u / 16 / 16 && u / 4096 == u / 16 / 16 / 16;
  }

  /** Every code point that is no surrogate is what its six bytes \uHHHH mean. */
  lemma {:induction false} BasicEscape(c: nat, d: seq<byte>, rest: seq<byte>, n: nat)
    requires c < 0x10000 && !(0xD800 <= c <= 0xDFFF) && Spells(d, c) && 6 <= n <= 6 + |rest|
    ensures Literal([0x5C, 0x75] + d + rest, n) == Some((c, 6))
  {
    hide Hex4, Spells;
    FourDigits(d, c);
    Hex4Reads(d, c);
    assert ([0x5C, 0x75] + d + rest)[2..6] == d;
  }

  lemma {:induction false} FourDigits(d: seq<byte>, u: nat)
    requires Spells(d, u)
    ensures |d| == 4 && forall i :: 0 <= i < 4 ==> d[i] != 0x22 && d[i] != 0x5C
  {
  }

  /** The high and the low surrogate of a code point beyond 16 bits. */
  lemma {:induction false} PairUnits(c: nat)
    requires 0x10000 <= c <= 0x10FFFF
    ensures var u := Wtf8.Units(c);
            && |u| == 2 && u == [0xD7C0 + c / 0x400, 0xDC00 + c % 0x400]
            && 0xD800 <= u[0] <= 0xDBFF && 0xDC00 <= u[1] <= 0xDFFF
            && c == 0x10000 + (u[0] as int - 0xD800) * 1024 + (u[1] as int - 0xDC00)
  {
    assert (c - 0x10000) / 1024 == c / 1024 - 64 && (c - 0x10000) % 1024 == c % 1024;
  }

  /** Every other code point is what the twelve bytes of its two units mean. */
  lemma {:induction false} PairEscape(c: nat, high: seq<byte>, low: seq<byte>, rest: seq<byte>, n: nat)
    requires 0x10000 <= c <= 0x10FFFF && 12 <= n <= 12 + |rest|
    requires Spells(high, Wtf8.Units(c)[0]) && Spells(low, Wtf8.Units(c)[1])
    ensures Literal([0x5C, 0x75] + high + [0x5C, 0x75] + low + rest, n) == Some((c, 12))
  {
    hide Hex4, Spells;
    PairUnits(c);
    FourDigits(high, Wtf8.Units(c)[0]);
    FourDigits(low, Wtf8.Units(c)[1]);
    Hex4Reads(high, Wtf8.Units(c)[0]);
    Hex4Reads(low, Wtf8.Units(c)[1]);
    var s := [0x5C, 0x75] + high + [0x5C, 0x75] + low + rest;
    assert s[2..6] == high && s[8..12] == low && s[6] == 0x5C && s[7] == 0x75;
  }

  /** t starts with the escape of a low surrogate. */
  ghost predicate LowFollows(t: seq<byte>) {
    exists v: nat, e: seq<byte> :: 0xDC00 <= v <= 0xDFFF && Spells(e, v) && [0x5C, 0x75] + e <= t
  }

  /** The escape of a surrogate is refused exactly when it is a low one, or a high one
      without a low one behind it. */
  lemma {:induction false} LoneSurrogate(u: nat, d: seq<byte>, rest: seq<byte>, n: nat)
    requires 0xD800 <= u <= 0xDFFF && Spells(d, u) && 6 <= n <= 6 + |rest|
    ensures Literal([0x5C, 0x75] + d + rest, n) == None <==> u >= 0xDC00 || !LowFollows(rest[..n - 6])
  {
    hide Hex4, Spells;
    FourDigits(d, u);
    Hex4Reads(d, u);
    var s, t := [0x5C, 0x75] + d + rest, rest[..n - 6];
    assert s[2..6] == d;
    if |t| >= 6 {
      assert s[6..12] == t[..6] && s[8..12] == t[2..6] && s[6] == t[0] && s[7] == t[1];
    }
    if LowFollows(t) {
      var v: nat, e: seq<byte> :| 0xDC00 <= v <= 0xDFFF && Spells(e, v) && [0x5C, 0x75] + e <= t;
      FourDigits(e, v);
      Hex4Reads(e, v);
      assert t[..6] == [0x5C, 0x75] + e && t[2..6] == e;
    } else if |t| >= 6 && t[0] == 0x5C && t[1] == 0x75 && Hex4(t[2..6]) != 0 {
      SpelledBy(t[2..6]);
      assert [0x5C, 0x75] + t[2..6] == t[..6];
    }
  }

  lemma {:induction false} SpelledBy(e: seq<byte>)
    requires |e| == 4 && Hex4(e) != 0
    ensures Spells(e, Hex4(e))
  {
    var a, b, c, d := HexDigit(e[0]).value, HexDigit(e[1]).value, HexDigit(e[2]).value, HexDigit(e[3]).value;
    Nibbles(a, b, c, d);
  }

  lemma {:induction false} Nibbles(a: nat, b: nat, c: nat, d: nat)
    requires a < 16 && b < 16 && c < 16 && d < 16
    ensures var u := ((a * 16 + b) * 16 + c) * 16 + d;
            u / 4096 == a && u / 256 % 16 == b && u / 16 % 16 == c && u % 16 == d && u < 0x10000
  {
  }

  // ---------- whole string literals ----------

  /** letter behind a backslash stands for c. */
  predicate Means(letter: byte, c: byte) {
    || (letter == 0x22 && c == 0x22)    // quotation mark
    || (letter == 0x5C && c == 0x5C)    // reverse solidus
    || (letter == 0x2F && c == 0x2F)    // solidus
    || (letter == 0x62 && c == 0x08)    // b, backspace
    || (letter == 0x66 && c == 0x0C)    // f, form feed
    || (letter == 0x6E && c == 0x0A)    // n, line feed
    || (letter == 0x72 && c == 0x0D)    // r, carriage return
    || (letter == 0x74 && c == 0x09)    // t, tab
  }

  /** One character of a literal: a byte as it is, or an escape of some kind. */
  datatype Part =
    | Plain(b: byte)
    | Short(letter: byte, b: byte)
    | Basic(c: nat, digits: seq<byte>)
    | Pair(c: nat, high: seq<byte>, low: seq<byte>)

  predicate PartOk(p: Part) {
    match p
    case Plain(b) => b != 0x22 && b != 0x5C
    case Short(letter, b) => Means(letter, b)
    case Basic(c, digits) => c < 0x10000 && !(0xD800 <= c <= 0xDFFF) && Spells(digits, c)
    case Pair(c, high, low) =>
      0x10000 <= c <= 0x10FFFF && Spells(high, Wtf8.Units(c)[0]) && Spells(low, Wtf8.Units(c)[1])
  }

  /** How it is written, and the bytes it stands for. */
  function Written(p: Part): seq<byte> {
    match p
    case Plain(b) => [b]
    case Short(letter, _) => [0x5C, letter]
    case Basic(_, digits) => [0x5C, 0x75] + digits
    case Pair(_, high, low) => [0x5C, 0x75] + high + [0x5C, 0x75] + low
  }

  function Meaning(p: Part): seq<byte>
    requires PartOk(p)
  {
    match p
    case Plain(b) => [b]
    case Short(_, b) => [b]
    case Basic(c, _) => Utf8.Encode(c)
    case Pair(c, _, _) => Utf8.Encode(c)
  }

  predicate AllOk(ps: seq<Part>) { forall i :: 0 <= i < |ps| ==> PartOk(ps[i]) }

  function AllWritten(ps: seq<Part>): seq<byte> {
    if ps == [] then [] else Written(ps[0]) + AllWritten(ps[1..])
  }

  function AllMeaning(ps: seq<Part>): seq<byte>
    requires AllOk(ps)
  {
    if ps == [] then [] else Meaning(ps[0]) + AllMeaning(ps[1..])
  }

  lemma {:induction false} BasicShape(c: nat, d: seq<byte>)
    requires PartOk(Basic(c, d))
    ensures |d| == 4 && forall i :: 0 <= i < 4 ==> d[i] != 0x22 && d[i] != 0x5C
  {
    hide Spells;
    FourDigits(d, c);
  }

  lemma {:induction false} PairShape(c: nat, high: seq<byte>, low: seq<byte>)
    requires PartOk(Pair(c, high, low))
    ensures |high| == |low| == 4
    ensures forall i :: 0 <= i < 4 ==> high[i] != 0x22 && high[i] != 0x5C && low[i] != 0x22 && low[i] != 0x5C
  {
    hide Spells;
    FourDigits(high, Wtf8.Units(c)[0]);
    FourDigits(low, Wtf8.Units(c)[1]);
  }

  /** An escape with digits only moves the closing quote. */
  lemma {:induction false} CloseDigits(d: seq<byte>, s: seq<byte>)
    requires |d| == 4 && forall i :: 0 <= i < 4 ==> d[i] != 0x22 && d[i] != 0x5C
    ensures Close([0x5C, 0x75] + d + s) == Further(Close(s), 6)
  {
    hide Close;
    var t := [0x5C, 0x75] + d + s;
    PlainRun(d, s);
    CloseEscape(t);
    assert t[2..] == d + s;
  }

  lemma {:induction false} CloseEscape(t: seq<byte>)
    requires |t| > 1 && t[0] == 0x5C
    ensures Close(t) == Further(Close(t[2..]), 2)
  {
  }

  lemma {:induction false} ClosePart(p: Part, s: seq<byte>)
    requires PartOk(p)
    ensures Close(Written(p) + s) == Further(Close(s), |Written(p)|)
  {
    hide Close, Spells;
    match p
    case Plain(b) => PlainRun([b], s);
    case Short(letter, b) =>
      CloseEscape([0x5C, letter] + s);
      assert ([0x5C, letter] + s)[2..] == s;
    case Basic(c, d) =>
      BasicShape(c, d);
      CloseDigits(d, s);
    case Pair(c, high, low) =>
      PairShape(c, high, low);
      ClosePair(high, low, s);
  }

  lemma {:induction false} ClosePair(high: seq<byte>, low: seq<byte>, s: seq<byte>)
    requires |high| == |low| == 4
    requires forall i :: 0 <= i < 4 ==> high[i] != 0x22 && high[i] != 0x5C && low[i] != 0x22 && low[i] != 0x5C
    ensures Close([0x5C, 0x75] + high + [0x5C, 0x75] + low + s) == Further(Close(s), 12)
  {
    hide Close;
    CloseDigits(low, s);
    CloseDigits(high, [0x5C, 0x75] + low + s);
    assert [0x5C, 0x75] + high + [0x5C, 0x75] + low + s == [0x5C, 0x75] + high + ([0x5C, 0x75] + low + s);
  }

  lemma {:induction false} UnescapePart(p: Part, s: seq<byte>, n: nat)
    requires PartOk(p) && n < |s|
    ensures Unescape(Written(p) + s, |Written(p)| + n) == Before(Meaning(p), Unescape(s, n))
  {
    hide Spells, Utf8.Encode, Literal;
    var t := Written(p) + s;
    match p
    case Plain(b) => assert t[1..] == s;
    case Short(letter, b) => assert t[2..] == s;
    case Basic(c, d) =>
      BasicShape(c, d);
      BasicEscape(c, d, s, 6 + n);
      assert t[6..] == s;
    case Pair(c, high, low) =>
      PairShape(c, high, low);
      PairEscape(c, high, low, s, 12 + n);
      assert t[12..] == s;
  }

  lemma {:induction false} AllParts(ps: seq<Part>, post: seq<byte>)
    requires AllOk(ps)
    ensures var s := AllWritten(ps) + ([0x22] + post);
            Close(s) == Some(|AllWritten(ps)|) && Unescape(s, |AllWritten(ps)|) == Some(AllMeaning(ps))
  {
    hide PartOk, Written, Meaning, Unescape;
    var end := [0x22] + post;
    if ps == [] {
      assert [] + end == end;
      NothingLeft(end);
    } else {
      hide Close;
      AllParts(ps[1..], post);
      var rest := AllWritten(ps[1..]) + end;
      assert AllWritten(ps) + end == Written(ps[0]) + rest;
      ClosePart(ps[0], rest);
      UnescapePart(ps[0], rest, |AllWritten(ps[1..])|);
    }
  }

  lemma {:induction false} NothingLeft(s: seq<byte>)
    requires s != []
    ensures Unescape(s, 0) == Some([])
  {
  }

  /** parse_string gives every literal its meaning: the bytes that its characters and
      escapes stand for, in order. */
  lemma {:induction false} LiteralMeaning(ps: seq<Part>, post: seq<byte>)
    requires AllOk(ps)
    ensures ParseString([0x22] + AllWritten(ps) + [0x22] + post) == Ok(AllMeaning(ps), post)
  {
    hide Close, Unescape;
    var s, w := [0x22] + AllWritten(ps) + [0x22] + post, AllWritten(ps);
    assert s[1..] == w + ([0x22] + post);
    AllParts(ps, post);
    assert s[|w| + 2..] == post;
  }

  lemma {:induction false} OneLiteral(p: Part, post: seq<byte>)
    requires PartOk(p)
    ensures ParseString([0x22] + Written(p) + [0x22] + post) == Ok(Meaning(p), post)
  {
    hide ParseString, PartOk, Written, Meaning;
    assert [p][1..] == [] && AllWritten([p]) == Written(p) + [] && AllMeaning([p]) == Meaning(p) + [];
    assert Written(p) + [] == Written(p) && Meaning(p) + [] == Meaning(p);
    LiteralMeaning([p], post);
  }

  /** The literal \uD83D\ude00 of U+1F600. */
  const FACE: seq<byte> := [0x5C, 0x75] + [0x44, 0x38, 0x33, 0x44] + [0x5C, 0x75] + [0x64, 0x65, 0x30, 0x30]

  lemma {:induction false} GrinningFace(post: seq<byte>)
    ensures ParseString([0x22] + FACE + [0x22] + post) == Ok([0xF0, 0x9F, 0x98, 0x80], post)
  {
    hide ParseString;
    var p := Pair(0x1F600, [0x44, 0x38, 0x33, 0x44], [0x64, 0x65, 0x30, 0x30]);
    FaceOk();
    OneLiteral(p, post);
  }

  lemma {:induction false} FaceOk()
    ensures var p := Pair(0x1F600, [0x44, 0x38, 0x33, 0x44], [0x64, 0x65, 0x30, 0x30]);
            PartOk(p) && Written(p) == FACE && Meaning(p) == [0xF0, 0x9F, 0x98, 0x80]
  {
    assert Spells([0x44, 0x38, 0x33, 0x44], 0xD83D) && Spells([0x64, 0x65, 0x30, 0x30], 0xDE00);
  }

  // ---------- what the printer writes ----------

  /** A byte is printed as a two-character escape if it has one other than the solidus,
      as a \u escape with small letters if it is another control character, and else as
      it is. */
  lemma {:induction false} PrintedAs(b: byte)
    ensures var e := EscapeByte(b);
            if b in {0x22, 0x5C, 0x08, 0x0C, 0x0A, 0x0D, 0x09} then |e| == 2 && e[0] == 0x5C && Means(e[1], b)
            else if b < 0x20 then
              && |e| == 6 && e[..2] == [0x5C, 0x75] && Spells(e[2..], b)
              && forall i :: 2 <= i < 6 ==> !(0x41 <= e[i] <= 0x5A)
            else e == [b]
  {
    if b < 0x20 && ShortEscape(b) == 0 {
      assert EscapeByte(b)[2..] == [0x30, 0x30, Hex(b / 16), Hex(b % 16)];
      LowByte(b);
    }
  }

  lemma {:induction false} LowByte(u: nat)
    requires u < 0x20
    ensures u / 4096 == 0 && u / 256 % 16 == 0 && u / 16 % 16 == u / 16
  {
  }
}
