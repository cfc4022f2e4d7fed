/**
 Conversion between UTF-16 and WTF-8 (idna.c): UTF-16 may hold unpaired
 surrogates, which WTF-8 keeps as three-byte sequences.
 */
module Wtf8 {
  import opened Bytes
  import Utf8

  type unit = x: int | 0 <= x < 0x10000

  // ---------- what the conversions mean ----------

  predicate IsPair(u: unit, next: unit) {
    0xD800 <= u <= 0xDBFF && 0xDC00 <= next <= 0xDFFF
  }

  /** The code point of a surrogate pair. */
  function Paired(high: nat, low: nat): int {
    0x10000 + (high - 0xD800) * 1024 + (low - 0xDC00)
  }

  /** The code point at the front of u (uv__get_surrogate_value), and its units. */
  function Front(u: seq<unit>): (r: (nat, nat))
    requires u != []
    ensures r.0 <= 0x10FFFF && 1 <= r.1 <= 2 && r.1 <= |u| && (r.1 == 2 <==> r.0 >= 0x10000)
  {
    if |u| > 1 && IsPair(u[0], u[1]) then (Paired(u[0], u[1]), 2) else (u[0], 1)
  }

  /** The WTF-8 form of a sequence of units. */
  function Wtf8Of(u: seq<unit>): seq<byte>
    decreases |u|
  {
    if u == [] then [] else Utf8.Encode(Front(u).0) + Wtf8Of(u[Front(u).1..])
  }

  /** The units of a code point. */
  function Units(c: nat): seq<unit>
    requires c <= 0x10FFFF
  {
    if c > 0xFFFF then [(c - 0x10000) / 1024 + 0xD800, (c - 0x10000) % 1024 + 0xDC00] else [c]
  }

  /** 0x80 after masking with 0xC0. */
  predicate IsContinuation(b: byte) { b / 64 == 2 }

  /** (acc << 6) | (b & 0x3F). */
  function Six(acc: nat, b: byte): nat { acc * 64 + b % 64 }

  /** uv__wtf8_decode1 on a text that ends in a zero byte: a code point and the
      bytes it took. */
  function Decode1(s: seq<byte>): (r: Option<(nat, nat)>)
    requires s != [] && s[|s| - 1] == 0
    ensures r.Some? ==> r.value.0 <= 0x10FFFF && 1 <= r.value.1 <= |s| && (r.value.1 == |s| ==> s == [0])
    ensures r.Some? ==> (s[r.value.1 - 1] == 0 <==> s[0] == 0) && (s[0] == 0 ==> r.value == (0, 1))
  {
    var b1 := s[0];
    if b1 <= 0x7F then Some((b1, 1))
    else if b1 < 0xC2 || !IsContinuation(s[1]) then None
    else
      var c2 := Six(b1, s[1]);
      if b1 <= 0xDF then Some((c2 % 0x800, 2))
      else if !IsContinuation(s[2]) then None
      else
        var c3 := Six(c2, s[2]);
        if b1 <= 0xEF then Some((c3 % 0x10000, 3))
        else if !IsContinuation(s[3]) then None
        else
          var c4 := Six(c3, s[3]) % 0x200000;
          if b1 <= 0xF4 && c4 <= 0x10FFFF then Some((c4, 4)) else None
  }

  /** What uv_wtf8_to_utf16 writes for a text that ends in a zero byte, the
      terminator included; nothing when some part of the text is refused. */
  function Utf16Of(s: seq<byte>): Option<seq<unit>>
    requires s != [] && s[|s| - 1] == 0
    decreases |s|
  {
    match Decode1(s)
    case None => None
    case Some((c, n)) =>
      if s[n - 1] == 0 then Some(Units(c))
      else match Utf16Of(s[n..]) case None => None case Some(t) => Some(Units(c) + t)
  }

  // ---------- the round trip ----------

  lemma {:induction false} UnitsOfFront(u: seq<unit>)
    requires u != []
    ensures Units(Front(u).0) == u[..Front(u).1]
  {
    if |u| > 1 && IsPair(u[0], u[1]) {
      var a: nat, b: nat := u[0] - 0xD800, u[1] - 0xDC00;
      assert Paired(u[0], u[1]) == 0x10000 + a * 1024 + b;
      assert (a * 1024 + b) / 1024 == a && (a * 1024 + b) % 1024 == b;
    }
  }

  /** Every code point, surrogates included, is read back from its encoding. */
  lemma {:induction false} DecodeEncoded(c: nat, rest: seq<byte>)
    requires c <= 0x10FFFF && rest != [] && rest[|rest| - 1] == 0
    ensures var s := Utf8.Encode(c) + rest; s[|s| - 1] == 0 && Decode1(s) == Some((c, Utf8.Width(c)))
  {
    var e := Utf8.Encode(c);
    var s := e + rest;
    var w := Utf8.Width(c);
    assert forall i :: 0 <= i < w ==> s[i] == e[i];
    if w == 2 {
      DecodedTwo(c, s);
    } else if w == 3 {
      DecodedThree(c, s);
    } else if w == 4 {
      DecodedFour(c, s);
    }
  }

  lemma {:induction false} SixAt(acc: nat, x: nat, b: byte)
    requires x < 64 && b == 0x80 + x
    ensures Six(acc, b) == acc * 64 + x && IsContinuation(b)
  {
  }

  lemma {:induction false} DecodedTwo(c: nat, s: seq<byte>)
    requires 0x80 <= c < 0x800 && |s| >= 3 && s[|s| - 1] == 0 && s[0] == 0xC0 + c / 64 && s[1] == 0x80 + c % 64
    ensures Decode1(s) == Some((c, 2))
  {
    SixAt(s[0], c % 64, s[1]);
    assert (s[0] * 64 + c % 64) == 6 * 0x800 + c;
  }

  lemma {:induction false} DecodedThree(c: nat, s: seq<byte>)
    requires 0x800 <= c < 0x10000 && |s| >= 4 && s[|s| - 1] == 0
    requires s[0] == 0xE0 + c / 4096 && s[1] == 0x80 + c / 64 % 64 && s[2] == 0x80 + c % 64
    ensures Decode1(s) == Some((c, 3))
  {
    SixAt(s[0], c / 64 % 64, s[1]);
    SixAt(Six(s[0], s[1]), c % 64, s[2]);
    assert c == c / 4096 * 4096 + c / 64 % 64 * 64 + c % 64 by { assert c / 64 / 64 == c / 4096; }
    assert Six(Six(s[0], s[1]), s[2]) == 14 * 0x10000 + c;
  }

  lemma {:induction false} DecodedFour(c: nat, s: seq<byte>)
    requires 0x10000 <= c <= 0x10FFFF && |s| >= 5 && s[|s| - 1] == 0
    requires s[0] == 0xF0 + c / 262144 && s[1] == 0x80 + c / 4096 % 64 && s[2] == 0x80 + c / 64 % 64 && s[3] == 0x80 + c % 64
    ensures Decode1(s) == Some((c, 4))
  {
    SixAt(s[0], c / 4096 % 64, s[1]);
    SixAt(Six(s[0], s[1]), c / 64 % 64, s[2]);
    SixAt(Six(Six(s[0], s[1]), s[2]), c % 64, s[3]);
    assert c == c / 262144 * 262144 + c / 4096 % 64 * 4096 + c / 64 % 64 * 64 + c % 64 by {
      assert c / 64 / 64 / 64 == c / 262144 && c / 64 / 64 == c / 4096;
    }
    assert Six(Six(Six(s[0], s[1]), s[2]), s[3]) == 30 * 0x200000 + c;
  }

  predicate NulFree(u: seq<unit>) {
    forall i :: 0 <= i < |u| ==> u[i] != 0
  }

  lemma {:induction false} EncodedNotNul(c: nat)
    requires 0 < c <= 0x10FFFF
    ensures Utf8.Encode(c)[0] != 0
  {
  }

  /** An encoded code point in front of a text. */
  lemma {:induction false} Utf16Step(c: nat, tail: seq<byte>)
    requires 0 < c <= 0x10FFFF && tail != [] && tail[|tail| - 1] == 0
    ensures (Utf8.Encode(c) + tail)[|Utf8.Encode(c) + tail| - 1] == 0
    ensures Utf16Of(Utf8.Encode(c) + tail) == match Utf16Of(tail) case None => None case Some(t) => Some(Units(c) + t)
  {
    hide Utf8.Encode, Units, Decode1;
    var s := Utf8.Encode(c) + tail;
    DecodeEncoded(c, tail);
    EncodedNotNul(c);
    assert s[0] == Utf8.Encode(c)[0];
    assert s[Utf8.Width(c)..] == tail;
  }

  /** UTF-16 to WTF-8 and back is the identity, unpaired surrogates included. */
  lemma {:induction false} RoundTrip(u: seq<unit>)
    requires NulFree(u)
    ensures Utf16Of(Wtf8Of(u) + [0]) == Some(u + [0])
    decreases |u|
  {
    hide Utf8.Encode, Units, Decode1, Utf16Of, Front, Wtf8Of;
    if u == [] {
      ZeroIs();
      assert u + [0] == [0] && Wtf8Of(u) + [0] == [0];
    } else {
      var (c, n) := Front(u);
      var rest := u[n..];
      var tail := Wtf8Of(rest) + [0];
      FrontNotNul(u);
      Utf16Step(c, tail);
      UnitsOfFront(u);
      Wtf8Front(u);
      RoundTrip(rest);
      assert u == u[..n] + rest;
      assert u[..n] + (rest + [0]) == u + [0];
    }
  }

  lemma {:induction false} FrontNotNul(u: seq<unit>)
    requires u != [] && u[0] != 0
    ensures Front(u).0 != 0
  {
  }

  lemma {:induction false} Wtf8Front(u: seq<unit>)
    requires u != []
    ensures Wtf8Of(u) + [0] == Utf8.Encode(Front(u).0) + (Wtf8Of(u[Front(u).1..]) + [0])
  {
    hide Utf8.Encode, Front;
  }

  lemma {:induction false} ZeroIs()
    ensures Utf16Of([0]) == Some([0]) && Wtf8Of([]) == []
  {
  }

  // ---------- WTF-8 to UTF-16 ----------

  /** uv__wtf8_decode1: the code point at p, or -1; the pointer moves to the last
      byte that was read. */
  method Decode1At(src: seq<byte>, p: nat) returns (c: int, p': nat)
    requires p < |src| && src[|src| - 1] == 0
    ensures match Decode1(src[p..])
            case None => c == -1
            case Some(r) => c == r.0 && p' == p + r.1 - 1 < |src|
  {
    p' := p;
    ghost var s := src[p..];
    var b1 := src[p'];
    if b1 <= 0x7F { return b1, p'; }
    if b1 < 0xC2 { return -1, p'; }
    c := b1;
    p' := p' + 1;
    assert s[1] == src[p'];
    if !IsContinuation(src[p']) { return -1, p'; }
    c := Six(c, src[p']);
    if b1 <= 0xDF { return c % 0x800, p'; }
    p' := p' + 1;
    assert s[2] == src[p'];
    if !IsContinuation(src[p']) { return -1, p'; }
    c := Six(c, src[p']);
    if b1 <= 0xEF { return c % 0x10000, p'; }
    p' := p' + 1;
    assert s[3] == src[p'];
    if !IsContinuation(src[p']) { return -1, p'; }
    c := Six(c, src[p']);
    if b1 <= 0xF4 {
      c := c % 0x200000;
      if c <= 0x10FFFF { return c, p'; }
    }
    return -1, p';
  }

  /** t without its first n units: what is still to be counted or written. */
  predicate Remains(src: seq<byte>, p: nat, n: nat)
    requires src != [] && src[|src| - 1] == 0 && p < |src|
  {
    match Utf16Of(src)
    case None => Utf16Of(src[p..]).None?
    case Some(t) => n <= |t| && Utf16Of(src[p..]) == Some(t[n..])
  }

  /** One turn of the loops over a WTF-8 text. */
  lemma {:induction false} RemainsStep(src: seq<byte>, p: nat, n: nat)
    requires src != [] && src[|src| - 1] == 0 && p < |src| && Remains(src, p, n)
    ensures Decode1(src[p..]) == None ==> Utf16Of(src) == None
    ensures Decode1(src[p..]).Some? ==>
              var r := Decode1(src[p..]).value; var q := p + r.1 - 1; var m := |Units(r.0)|;
              q < |src| && (if src[q] == 0 then Utf16Of(src).Some? && |Utf16Of(src).value| == n + m
                            else q + 1 < |src| && Remains(src, q + 1, n + m))
    ensures Decode1(src[p..]).Some? && Utf16Of(src).Some? ==>
              var m := |Units(Decode1(src[p..]).value.0)|; var t := Utf16Of(src).value;
              n + m <= |t| && t[n..n + m] == Units(Decode1(src[p..]).value.0)
  {
    hide Decode1, Units;
    if Decode1(src[p..]).Some? {
      var (c, k) := Decode1(src[p..]).value;
      assert src[p..][k - 1] == src[p + k - 1];
      if src[p + k - 1] != 0 {
        assert src[p..][k..] == src[p + k..];
        if Utf16Of(src).Some? {
          var t := Utf16Of(src).value;
          var u := Units(c);
          var rest := Utf16Of(src[p + k..]).value;
          assert t[n..] == u + rest;
          assert t[n..][|u|..] == t[n + |u|..] && t[n..][..|u|] == t[n..n + |u|];
        }
      } else if Utf16Of(src).Some? {
        var t := Utf16Of(src).value;
        assert t[n..] == Units(c);
      }
    }
  }

  lemma {:induction false} RemainsAll(src: seq<byte>)
    requires src != [] && src[|src| - 1] == 0
    ensures Remains(src, 0, 0)
  {
    assert src[0..] == src;
    if Utf16Of(src).Some? { assert Utf16Of(src).value[0..] == Utf16Of(src).value; }
  }

  /** uv_wtf8_length_as_utf16: how many units the text becomes, its terminator
      included, or -1. */
  method LengthAsUtf16(src: seq<byte>) returns (length: int)
    requires src != [] && src[|src| - 1] == 0
    ensures match Utf16Of(src) case None => length == -1 case Some(t) => length == |t|
  {
    hide Decode1, Remains, Utf16Of, Units;
    var p, n: nat := 0, 0;
    RemainsAll(src);
    while true
      invariant p < |src| && Remains(src, p, n)
      decreases |src| - p
    {
      RemainsStep(src, p, n);
      var c;
      c, p := Decode1At(src, p);
      if c < 0 { return -1; }
      UnitCount(c);
      if c > 0xFFFF { n := n + 1; }
      n := n + 1;
      if src[p] == 0 { break; }
      p := p + 1;
    }
    length := n;
  }

  lemma {:induction false} UnitCount(c: nat)
    requires c <= 0x10FFFF
    ensures |Units(c)| == if c > 0xFFFF then 2 else 1
    ensures c <= 0xFFFF ==> Units(c)[0] == c
    ensures c > 0xFFFF ==> Units(c)[0] == (c - 0x10000) / 1024 + 0xD800 && Units(c)[1] == (c - 0x10000) % 1024 + 0xDC00
  {
  }

  /** uv_wtf8_to_utf16, after its length has been asked for. */
  method ToUtf16(src: seq<byte>, target: array<unit>)
    requires src != [] && src[|src| - 1] == 0
    requires Utf16Of(src).Some? && target.Length == |Utf16Of(src).value|
    modifies target
    ensures target[..] == Utf16Of(src).value
  {
    hide Decode1, Remains, Utf16Of, Units;
    ghost var t := Utf16Of(src).value;
    var p, n: nat := 0, 0;
    RemainsAll(src);
    while true
      invariant p < |src| && Remains(src, p, n) && n <= |t| && target[..n] == t[..n]
      decreases |src| - p
    {
      RemainsStep(src, p, n);
      var c;
      c, p := Decode1At(src, p);
      UnitCount(c);
      ghost var m := |Units(c)|;
      assert t[..n + m] == t[..n] + t[n..n + m];
      if c > 0xFFFF {
        target[n] := (c - 0x10000) / 1024 + 0xD800;
        target[n + 1] := (c - 0x10000) % 1024 + 0xDC00;
        n := n + 2;
      } else {
        target[n] := c;
        n := n + 1;
      }
      if src[p] == 0 { break; }
      p := p + 1;
    }
  }

  // ---------- UTF-16 to WTF-8 ----------

  /** u up to its first zero unit. */
  function UpToNul(u: seq<unit>): (r: seq<unit>)
    ensures |r| <= |u|
  {
    if u == [] || u[0] == 0 then [] else [u[0]] + UpToNul(u[1..])
  }

  /** The text at u: len units, or up to the zero unit when len is negative. */
  function TextAt(u: seq<unit>, len: int): seq<unit> {
    if len < 0 then UpToNul(u) else if len <= |u| then u[..len] else u
  }

  /** len describes a text that is there. */
  predicate LenOk(u: seq<unit>, len: int) {
    if len < 0 then exists i :: 0 <= i < |u| && u[i] == 0 else len <= |u|
  }

  /** uv__get_surrogate_value. */
  method SurrogateValue(src: seq<unit>, p: nat, len: int) returns (c: int)
    requires p <= |src| && LenOk(src[p..], len) && len != 0
    ensures p < |src|
    ensures var text := TextAt(src[p..], len); if text == [] then c == 0 && src[p] == 0 && len < 0 else c == Front(text).0 && (len < 0 ==> c != 0)
  {
    NextUnits(src[p..], len);
    var u := src[p];
    if 0xD800 <= u <= 0xDBFF && len != 1 {
      assert src[p..][1] == src[p + 1];
      var next := src[p + 1];
      if 0xDC00 <= next <= 0xDFFF { return Paired(u, next); }
    }
    return u;
  }

  lemma {:induction false} NextUnits(u: seq<unit>, len: int)
    requires LenOk(u, len) && len != 0
    ensures u != [] && (u[0] != 0 && len != 1 ==> |u| > 1)
    ensures var t := TextAt(u, len);
            && (t == [] <==> len < 0 && u[0] == 0)
            && (t != [] ==> t[0] == u[0] && (|t| > 1 <==> len != 1 && (len < 0 ==> u[1] != 0)) && (|t| > 1 ==> t[1] == u[1]))
  {
    if len < 0 && u[0] != 0 {
      var i :| 0 <= i < |u| && u[i] == 0;
      assert u[1..] != [];
      assert UpToNul(u) == [u[0]] + UpToNul(u[1..]);
    }
  }

  function Less(len: int, k: nat): int { if len > 0 then len - k else len }

  /** Moving past the front of the text. */
  lemma {:induction false} TextStep(u: seq<unit>, len: int)
    requires LenOk(u, len) && len != 0 && TextAt(u, len) != []
    ensures var t := TextAt(u, len); var k := Front(t).1;
            && k <= |u| && (len > 0 ==> k <= len)
            && LenOk(u[k..], Less(len, k)) && TextAt(u[k..], Less(len, k)) == t[k..]
  {
    var t := TextAt(u, len);
    var k := Front(t).1;
    if len < 0 {
      var i :| 0 <= i < |u| && u[i] == 0;
      assert t == [u[0]] + UpToNul(u[1..]);
      if k == 2 {
        assert t[1] == u[1] by { NextUnits(u, len); }
        assert UpToNul(u[1..]) == [u[1]] + UpToNul(u[1..][1..]);
        assert u[1..][1..] == u[2..];
        assert u[2..][i - 2] == 0;
      } else {
        assert u[1..][i - 1] == 0;
      }
    }
  }

  /** The text at u is the text of src without what made its first n bytes. */
  predicate ToDo(w: seq<byte>, u: seq<unit>, len: int, n: nat) {
    LenOk(u, len) && n <= |w| && w[n..] == Wtf8Of(TextAt(u, len))
  }

  lemma {:induction false} ToDoStep(w: seq<byte>, u: seq<unit>, len: int, n: nat)
    requires ToDo(w, u, len, n) && len != 0 && TextAt(u, len) != []
    ensures var (c, k) := Front(TextAt(u, len)); var m := Utf8.Width(c);
            && k <= |u| && (len > 0 ==> k <= len) && n + m <= |w| && w[n..n + m] == Utf8.Encode(c) && ToDo(w, u[k..], Less(len, k), n + m)
  {
    hide Utf8.Encode, Front, TextAt;
    var t := TextAt(u, len);
    var (c, k) := Front(t);
    TextStep(u, len);
    var e, rest := Utf8.Encode(c), Wtf8Of(t[k..]);
    assert w[n..] == e + rest;
    assert w[n..][..|e|] == w[n..n + |e|] && w[n..][|e|..] == w[n + |e|..];
  }

  /** uv_utf16_length_as_wtf8. */
  method LengthAsWtf8(src: seq<unit>, from: nat, len: int) returns (n: nat)
    requires from <= |src| && LenOk(src[from..], len)
    ensures n == |Wtf8Of(TextAt(src[from..], len))|
  {
    hide Front, Wtf8Of, LenOk, TextAt;
    ghost var w := Wtf8Of(TextAt(src[from..], len));
    var p, left := from, len;
    n := 0;
    ToDoAll(src[from..], len);
    while left != 0
      invariant p <= |src| && ToDo(w, src[p..], left, n)
      decreases |src| - p
    {
      var c := SurrogateValue(src, p, left);
      if left < 0 && c == 0 { break; }
      ToDoStep(w, src[p..], left, n);
      FrontSize(TextAt(src[p..], left));
      ghost var k := Front(TextAt(src[p..], left)).1;
      assert src[p..][k..] == src[p + k..];
      if c < 0x80 {
        n := n + 1;
      } else if c < 0x800 {
        n := n + 2;
      } else if c < 0x10000 {
        n := n + 3;
      } else {
        n := n + 4;
        p := p + 1;
        if left > 0 { left := left - 1; }
      }
      p := p + 1;
      if left > 0 { left := left - 1; }
    }
    ToDoNone(w, src[p..], left, n);
  }

  lemma {:induction false} ToDoAll(u: seq<unit>, len: int)
    requires LenOk(u, len)
    ensures ToDo(Wtf8Of(TextAt(u, len)), u, len, 0)
  {
    var w := Wtf8Of(TextAt(u, len));
    assert w[0..] == w;
  }

  lemma {:induction false} FrontSize(t: seq<unit>)
    requires t != []
    ensures Front(t).0 <= 0x10FFFF && 1 <= Front(t).1 <= 2 && (Front(t).1 == 2 <==> Front(t).0 >= 0x10000)
  {
  }

  lemma {:induction false} ToDoNone(w: seq<byte>, u: seq<unit>, len: int, n: nat)
    requires ToDo(w, u, len, n) && (len == 0 || TextAt(u, len) == [])
    ensures n == |w|
  {
  }

  /** The bytes of one code point as long as there is room; whether all fitted. */
  method PutCodePoint(target: array<byte>, at: nat, end: nat, c: nat) returns (at': nat, whole: bool)
    requires c <= 0x10FFFF && at < end <= target.Length
    modifies target
    ensures whole <==> at + Utf8.Width(c) <= end
    ensures at' == if whole then at + Utf8.Width(c) else end
    ensures at' - at <= |Utf8.Encode(c)| && forall k :: 0 <= k < at' - at ==> target[at + k] == Utf8.Encode(c)[k]
    ensures forall k :: 0 <= k < target.Length && !(at <= k < at') ==> target[k] == old(target[k])
  {
    hide Utf8.Encode;
    ghost var e := Utf8.Encode(c);
    Utf8.EncodeBytes(c);
    at' := at;
    if c < 0x80 {
      target[at'] := c;
      at' := at' + 1;
    } else if c < 0x800 {
      target[at'] := 0xC0 + c / 64;
      at' := at' + 1;
      if at' == end { return at', false; }
      target[at'] := 0x80 + c % 64;
      at' := at' + 1;
    } else if c < 0x10000 {
      target[at'] := 0xE0 + c / 4096;
      at' := at' + 1;
      if at' == end { return at', false; }
      target[at'] := 0x80 + c / 64 % 64;
      at' := at' + 1;
      if at' == end { return at', false; }
      target[at'] := 0x80 + c % 64;
      at' := at' + 1;
    } else {
      target[at'] := 0xF0 + c / 262144;
      at' := at' + 1;
      if at' == end { return at', false; }
      target[at'] := 0x80 + c / 4096 % 64;
      at' := at' + 1;
      if at' == end { return at', false; }
      target[at'] := 0x80 + c / 64 % 64;
      at' := at' + 1;
      if at' == end { return at', false; }
      target[at'] := 0x80 + c % 64;
      at' := at' + 1;
    }
    whole := true;
  }

  /** The loop of uv_utf16_to_wtf8: as much of the text as fits before end.
      left is what remains of len; done is the offset behind the last whole
      character written, or end while there is none. */
  method FillTarget(src: seq<unit>, len: int, target: array<byte>, end: nat) returns (at: nat, p: nat, left: int, done: nat)
    requires LenOk(src, len) && end < target.Length
    modifies target
    ensures p <= |src| && LenOk(src[p..], left) && at <= end
    ensures var w := Wtf8Of(TextAt(src, len)); at == Min(end, |w|) && target[..at] == w[..at]
    ensures |Wtf8Of(TextAt(src, len))| > end ==> left != 0 && (left < 0 ==> p < |src| && src[p] != 0)
    ensures |Wtf8Of(TextAt(src, len))| <= end ==> left == 0 || (left < 0 && at == end && p < |src| && src[p] == 0)
    ensures var t := TextAt(src, len); var w := Wtf8Of(t);
            |w| > end ==> t != [] && done + |Wtf8Of(TextAt(src[p..], left))| == |w| + if Utf8.Width(Front(t).0) > end then end else 0
  {
    hide Front, Wtf8Of, LenOk, TextAt, Utf8.Encode, Utf8.Width, ToDo, FirstFits;
    ghost var w := Wtf8Of(TextAt(src, len));
    at, p, left, done := 0, 0, len, end;
    ghost var stopped := false;
    assert src[0..] == src;
    ToDoAll(src, len);
    while at != end && left != 0
      invariant !stopped && p <= |src| && at <= end && at <= |w| && target[..at] == w[..at] && ToDo(w, src[p..], left, at)
      invariant if at == 0 then p == 0 && left == len && done == end else done == at && FirstFits(src, len, at)
      decreases |src| - p
    {
      ToDoOk(w, src[p..], left, at);
      var c := SurrogateValue(src, p, left);
      if left < 0 && c == 0 {
        ToDoNone(w, src[p..], left, at);
        left := 0;
        stopped := true;
        StillOk(src[p..]);
        break;
      }
      ToDoStep(w, src[p..], left, at);
      FrontSize(TextAt(src[p..], left));
      ghost var k := Front(TextAt(src[p..], left)).1;
      assert src[p..][k..] == src[p + k..];
      ghost var before, was := at, target[..];
      var whole;
      at, whole := PutCodePoint(target, at, end, c);
      PrefixMore(w, was, target[..], before, c, at - before);
      FrontWidth(TextAt(src[p..], left));
      if !whole {
        CutShort(w, src[p..], left, before);
        ToDoSize(w, src[p..], left, before);
        FirstFitsIs(src, len, before);
        stopped := true;
        break;
      }
      if c >= 0x10000 {
        p := p + 1;
        if left > 0 { left := left - 1; }
      }
      done := at;
      if before == 0 { FirstFitsNow(src, len, at); } else { FirstFitsMore(src, len, before, at); }
      p := p + 1;
      if left > 0 { left := left - 1; }
    }
    if !stopped {
      FillEnd(w, src[p..], left, at, end);
      ToDoSize(w, src[p..], left, at);
      FirstFitsIs(src, len, at);
      if |w| > end { WidthPositive(TextAt(src, len)); }
    }
  }

  /** The first character takes no more than n bytes. */
  predicate FirstFits(src: seq<unit>, len: int, n: nat) {
    TextAt(src, len) != [] && Utf8.Width(Front(TextAt(src, len)).0) <= n
  }

  lemma {:induction false} FirstFitsNow(src: seq<unit>, len: int, n: nat)
    requires TextAt(src, len) != [] && Utf8.Width(Front(TextAt(src, len)).0) <= n
    ensures FirstFits(src, len, n)
  {
  }

  lemma {:induction false} FirstFitsMore(src: seq<unit>, len: int, n: nat, m: nat)
    requires FirstFits(src, len, n) && n <= m
    ensures FirstFits(src, len, m)
  {
  }

  lemma {:induction false} FirstFitsIs(src: seq<unit>, len: int, n: nat)
    ensures FirstFits(src, len, n) ==> TextAt(src, len) != [] && Utf8.Width(Front(TextAt(src, len)).0) <= n
  {
  }

  lemma {:induction false} FrontWidth(t: seq<unit>)
    requires t != []
    ensures 1 <= Utf8.Width(Front(t).0) <= 4
  {
  }

  lemma {:induction false} ToDoSize(w: seq<byte>, u: seq<unit>, len: int, n: nat)
    requires ToDo(w, u, len, n)
    ensures |Wtf8Of(TextAt(u, len))| == |w| - n
  {
  }

  lemma {:induction false} WidthPositive(t: seq<unit>)
    requires Wtf8Of(t) != []
    ensures t != [] && Utf8.Width(Front(t).0) >= 1
  {
  }

  lemma {:induction false} StillOk(u: seq<unit>)
    ensures LenOk(u, 0)
  {
  }

  lemma {:induction false} PrefixMore(w: seq<byte>, was: seq<byte>, now: seq<byte>, n: nat, c: nat, k: nat)
    requires c <= 0x10FFFF && k <= Utf8.Width(c) && n + Utf8.Width(c) <= |w| && w[n..n + Utf8.Width(c)] == Utf8.Encode(c)
    requires n + k <= |was| == |now| && was[..n] == w[..n]
    requires forall i :: 0 <= i < k ==> now[n + i] == Utf8.Encode(c)[i]
    requires forall i :: 0 <= i < n ==> now[i] == was[i]
    ensures now[..n + k] == w[..n + k]
  {
    hide Utf8.Encode, Utf8.Width;
    assert forall i :: 0 <= i < n ==> was[..n][i] == w[..n][i];
    forall i | n <= i < n + k ensures now[i] == w[i] {
      assert now[n + (i - n)] == w[n..n + Utf8.Width(c)][i - n];
    }
  }

  lemma {:induction false} CutShort(w: seq<byte>, u: seq<unit>, left: int, n: nat)
    requires ToDo(w, u, left, n) && left != 0 && TextAt(u, left) != []
    ensures LenOk(u, left) && u != [] && (left < 0 ==> u[0] != 0)
  {
    NextUnits(u, left);
  }

  lemma {:induction false} FillEnd(w: seq<byte>, u: seq<unit>, left: int, at: nat, end: nat)
    requires ToDo(w, u, left, at) && at <= end && (at == end || left == 0)
    ensures LenOk(u, left) && at == Min(end, |w|)
    ensures |w| > end ==> left != 0 && (left < 0 ==> u != [] && u[0] != 0)
    ensures |w| <= end ==> left == 0 || (left < 0 && at == end && u != [] && u[0] == 0)
  {
    hide Front, Wtf8Of, LenOk, TextAt, Utf8.Encode;
    ToDoOk(w, u, left, at);
    if left == 0 {
      ToDoNone(w, u, left, at);
    } else {
      NextUnits(u, left);
      if TextAt(u, left) == [] { ToDoNone(w, u, left, at); } else { ToDoStep(w, u, left, at); }
    }
  }

  lemma {:induction false} ToDoOk(w: seq<byte>, u: seq<unit>, len: int, n: nat)
    requires ToDo(w, u, len, n)
    ensures LenOk(u, len) && n <= |w|
  {
  }

  /** uv_utf16_to_wtf8.  Without a target pointer it only reports the length;
      otherwise it writes into the given buffer of capacity bytes and room for a
      terminator, or into a new one.  The length reported with UV_ENOBUFS is the
      length needed, unless not even the first character fits: then it is too
      large by the capacity. */
  method Utf16ToWtf8(src: seq<unit>, len: int, hasTarget: bool, given: array?<byte>, capacity: nat)
      returns (rc: int, target: array?<byte>, length: nat)
    requires LenOk(src, len) && (given != null ==> hasTarget && capacity < given.Length)
    modifies if given == null then {} else {given}
    ensures given != null ==> target == given
    ensures !hasTarget ==> rc == 0 && target == null && length == |Wtf8Of(TextAt(src, len))|
    ensures hasTarget && given == null ==> if rc == UV_ENOMEM then target == null else rc == 0 && target != null && fresh(target)
    ensures given != null ==> rc == if |Wtf8Of(TextAt(src, len))| <= capacity then 0 else UV_ENOBUFS
    ensures hasTarget && rc == 0 ==> var w := Wtf8Of(TextAt(src, len));
              target != null && length == |w| < target.Length && target[..length] == w && target[length] == 0
    ensures rc == UV_ENOBUFS ==> var w := Wtf8Of(TextAt(src, len));
              target != null && capacity < |w| && capacity < target.Length && target[..capacity] == w[..capacity] && target[capacity] == 0
    ensures rc == UV_ENOBUFS ==> var t := TextAt(src, len);
              t != [] && length == |Wtf8Of(t)| + if Utf8.Width(Front(t).0) > capacity then capacity else 0
  {
    hide Front, Wtf8Of, LenOk, TextAt;
    assert src[0..] == src;
    var end;
    if given == null {
      end := LengthAsWtf8(src, 0, len);
      if !hasTarget { return 0, null, end; }
      var failed: bool := *;
      if failed { return UV_ENOMEM, null, end; }
      target := new byte[end + 1];
    } else {
      end := capacity;
      target := given;
    }
    length := end;
    var at, p, left, done := FillTarget(src, len, target, end);
    if at != end { length := at; }
    if left < 0 && at == end && src[p] == 0 { left := 0; }
    target[at] := 0;
    if left != 0 {
      var more := LengthAsWtf8(src, p, left);
      return UV_ENOBUFS, target, done + more;
    }
    rc := 0;
  }
}
