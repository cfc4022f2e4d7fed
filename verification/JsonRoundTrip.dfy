/** Parsing inverts printing. */
module JsonRoundTrip {
  import opened Bytes
  import opened Json
  import Utf8

  /** Values whose numbers are 32-bit integers. */
  predicate Plain(v: Value) {
    match v
    case Number(d) => d.Finite? && d.value == IntOf(d.value) as real
    case Array(items) => PlainItems(items)
    case Object(ms) => PlainMembers(ms)
    case _ => true
  }

  predicate PlainItems(items: Items) {
    items.Item? ==> Plain(items.value) && PlainItems(items.next)
  }

  predicate PlainMembers(ms: Members) {
    ms.Member? ==> Plain(ms.value) && PlainMembers(ms.next)
  }

  // ---------- strings ----------

  lemma {:induction false} CloseByte(c: byte, s: seq<byte>)
    ensures Close(EscapeByte(c) + s) == Further(Close(s), |EscapeByte(c)|)
  {
    var e := EscapeByte(c);
    var t := e + s;
    if |e| == 1 {
      assert t[1..] == s;
    } else if |e| == 2 {
      assert t[2..] == s;
    } else {
      PlainRun(e[2..], s);
      assert t[2..] == e[2..] + s;
    }
  }

  /** Bytes that are neither quotes nor backslashes only move the closing quote. */
  lemma {:induction false} PlainRun(a: seq<byte>, s: seq<byte>)
    requires forall i :: 0 <= i < |a| ==> a[i] != 0x22 && a[i] != 0x5C
    ensures Close(a + s) == Further(Close(s), |a|)
  {
    if a == [] {
      assert a + s == s;
    } else {
      PlainRun(a[1..], s);
      assert (a + s)[1..] == a[1..] + s;
    }
  }

  lemma {:induction false} EscapeSplit(x: seq<byte>, post: seq<byte>)
    requires x != []
    ensures Escape(x) + [0x22] + post == EscapeByte(x[0]) + (Escape(x[1..]) + [0x22] + post)
    ensures |Escape(x)| == |EscapeByte(x[0])| + |Escape(x[1..])|
  {
    hide EscapeByte;
    var e, rest := EscapeByte(x[0]), Escape(x[1..]);
    assert e + rest + [0x22] + post == e + (rest + [0x22] + post);
  }

  lemma {:induction false} CloseEscaped(x: seq<byte>, post: seq<byte>)
    ensures Close(Escape(x) + [0x22] + post) == Some(|Escape(x)|)
  {
    hide EscapeByte;
    if x == [] {
      assert Escape(x) + [0x22] + post == [0x22] + post;
    } else {
      hide Close, Escape;
      CloseEscaped(x[1..], post);
      CloseByte(x[0], Escape(x[1..]) + [0x22] + post);
      EscapeSplit(x, post);
    }
  }

  lemma {:induction false} HexBack(n: nat)
    requires n < 16
    ensures HexDigit(Hex(n)) == Some(n)
  {
  }

  /** One escaped byte is read back. */
  lemma {:induction false} UnescapeByte(c: byte, s: seq<byte>, n: nat)
    requires n < |s|
    ensures Unescape(EscapeByte(c) + s, |EscapeByte(c)| + n) == Before([c], Unescape(s, n))
  {
    hide Utf8.Encode;
    var e := EscapeByte(c);
    var t := e + s;
    if |e| == 1 {
      assert t[1..] == s;
    } else if |e| == 2 {
      assert t[2..] == s;
    } else {
      HexBack(c / 16);
      HexBack(c % 16);
      assert t[2..6] == [0x30, 0x30, Hex(c / 16), Hex(c % 16)];
      HexOf(t[2..6], c);
      assert Literal(t, 6 + n) == Some((c as nat, 6));
      OneByte(c);
      assert t[6..] == s;
    }
  }

  lemma {:induction false} OneByte(c: byte)
    requires c < 32
    ensures Utf8.Encode(c) == [c]
  {
  }

  lemma {:induction false} HexOf(h: seq<byte>, c: byte)
    requires |h| == 4 && h[0] == 0x30 && h[1] == 0x30 && HexDigit(h[2]) == Some(c / 16) && HexDigit(h[3]) == Some(c % 16)
    ensures Hex4(h) == c
  {
  }

  lemma {:induction false} UnescapeEscaped(x: seq<byte>, post: seq<byte>)
    ensures Unescape(Escape(x) + [0x22] + post, |Escape(x)|) == Some(x)
  {
    if x == [] {
    } else {
      UnescapeEscaped(x[1..], post);
      UnescapeByte(x[0], Escape(x[1..]) + [0x22] + post, |Escape(x[1..])|);
      EscapeSplit(x, post);
      assert [x[0]] + x[1..] == x;
    }
  }

  /** parse_string inverts print_string_ptr. */
  lemma {:induction false} StringRoundTrip(x: seq<byte>, post: seq<byte>)
    ensures ParseString(Quoted(x) + post) == Ok(x, post)
  {
    var s := Quoted(x) + post;
    var e := Escape(x);
    assert s[1..] == e + [0x22] + post;
    CloseEscaped(x, post);
    UnescapeEscaped(x, post);
    assert s[|e| + 2..] == post;
  }

  // ---------- whitespace and numbers ----------

  predicate Blank(w: seq<byte>) {
    forall i :: 0 <= i < |w| ==> w[i] <= 32
  }

  lemma {:induction false} SkipBlank(w: seq<byte>, s: seq<byte>)
    requires Blank(w) && s != [] && s[0] > 32
    ensures Skip(w + s) == s
  {
    if w == [] {
      assert w + s == s;
    } else {
      SkipBlank(w[1..], s);
      assert (w + s)[1..] == w[1..] + s;
    }
  }

  /** Nothing that could belong to a number follows. */
  predicate Stops(post: seq<byte>) { post == [] || !IsNumberByte(post[0]) }

  lemma {:induction false} RunOf(a: seq<byte>, post: seq<byte>)
    requires Stops(post) && forall i :: 0 <= i < |a| ==> IsNumberByte(a[i])
    ensures NumberRun(a + post) == |a|
  {
    if a == [] {
      assert a + post == post;
    } else {
      RunOf(a[1..], post);
      assert (a + post)[1..] == a[1..] + post;
    }
  }

  lemma {:induction false} NumberRoundTrip(f: Floats, n: int, post: seq<byte>)
    requires INT_MIN <= n <= INT_MAX && Stops(post)
    ensures ParseNumber(f, IntText(n) + post) == Ok(Number(Finite(n as real)), post)
  {
    var t := IntText(n);
    IntegerBack(n);
    RunOf(t, post);
    assert (t + post)[..|t|] == t && (t + post)[|t|..] == post;
  }

  // ---------- values ----------

  /** Every text of a value starts with a byte that is not blank, and says what follows. */
  lemma {:induction false} FirstByte(f: Floats, v: Value, d: nat, fmt: bool)
    requires Plain(v)
    ensures var r := Render(f, v, d, fmt); r != [] && 32 < r[0] < 0x80
  {
  }

  /** parse_value inverts print_value in both styles, at every depth the limit allows. */
  lemma {:induction false} ValueRoundTrip(f: Floats, v: Value, d: nat, fmt: bool, post: seq<byte>)
    requires Plain(v) && d + Depth(v) <= NESTING_LIMIT && Stops(post)
    ensures ParseValue(f, Render(f, v, d, fmt) + post, d) == Ok(v, post)
    decreases v, 0
  {
    hide ParseString, ParseNumber, ParseItems, ParseMembers, Quoted, IntText, RenderItems, RenderMembers, Skip;
    var r := Render(f, v, d, fmt);
    var s := r + post;
    match v
    case Null => assert NULL_TEXT <= s && s[4..] == post;
    case False => assert s[0] == 0x66 && FALSE_TEXT <= s && s[5..] == post;
    case True => assert s[0] == 0x74 && TRUE_TEXT <= s && s[4..] == post;
    case Number(x) =>
      NumberRoundTrip(f, IntOf(x.value), post);
      IntFirst(IntOf(x.value), post);
      NumberGrammar(f, IntText(IntOf(x.value)) + post, d);
    case Text(t) =>
      StringRoundTrip(t, post);
      QuoteFirst(t, post);
      StringGrammar(f, Quoted(t) + post, d);
    case Array(items) => ArrayRoundTrip(f, items, d, fmt, post);
    case Object(ms) => ObjectRoundTrip(f, ms, d, fmt, post);
  }

  lemma {:induction false} QuoteFirst(t: seq<byte>, post: seq<byte>)
    ensures |Quoted(t)| >= 2 && Quoted(t)[0] == 0x22
    ensures var s := Quoted(t) + post; s != [] && s[0] == 0x22
  {
  }

  lemma {:induction false} IntFirst(n: int, post: seq<byte>)
    ensures var s := IntText(n) + post; s != [] && (s[0] == 0x2D || 0x30 <= s[0] <= 0x39)
  {
  }

  lemma {:induction false} ArrayRoundTrip(f: Floats, items: Items, d: nat, fmt: bool, post: seq<byte>)
    requires PlainItems(items) && d + 1 + ItemsDepth(items) <= NESTING_LIMIT
    ensures ParseValue(f, [0x5B] + RenderItems(f, items, d + 1, fmt) + [0x5D] + post, d) == Ok(Array(items), post)
    decreases items, 2
  {
    hide ParseItems, ParseValue, RenderItems, Skip;
    var t := RenderItems(f, items, d + 1, fmt) + [0x5D] + post;
    BracketText(RenderItems(f, items, d + 1, fmt), post);
    ArrayGrammar(f, [0x5B] + RenderItems(f, items, d + 1, fmt) + [0x5D] + post, d);
    ItemsFirst(f, items, d + 1, fmt);
    SkipBlank([], t);
    if items.Item? {
      ItemsRoundTrip(f, items, d + 1, fmt, [], post);
    }
  }

  /** What stands behind the bracket of an array. */
  lemma {:induction false} BracketText(body: seq<byte>, post: seq<byte>)
    ensures var s, t := [0x5B] + body + [0x5D] + post, body + [0x5D] + post;
            && s[0] == 0x5B && s[1..] == t && [] + t == t && t != []
            && t[0] == (if body == [] then 0x5D else body[0])
            && (body == [] ==> t[1..] == post)
  {
  }

  lemma {:induction false} ItemsFirst(f: Floats, items: Items, d: nat, fmt: bool)
    requires PlainItems(items)
    ensures items.NoItems? ==> RenderItems(f, items, d, fmt) == []
    ensures items.Item? ==> var r := RenderItems(f, items, d, fmt); r != [] && 32 < r[0] < 0x80 && r[0] != 0x5D
  {
    if items.Item? { FirstByte(f, items.value, d, fmt); }
  }

  lemma {:induction false} ItemsRoundTrip(f: Floats, items: Items, d: nat, fmt: bool, w: seq<byte>, post: seq<byte>)
    requires PlainItems(items) && items.Item? && d + ItemsDepth(items) <= NESTING_LIMIT && Blank(w)
    ensures ParseItems(f, w + (RenderItems(f, items, d, fmt) + [0x5D] + post), d) == Ok(items, post)
    decreases items, 1
  {
    hide ParseValue, Render, Skip, RenderItems;
    var Item(v, next) := items;
    var r := Render(f, v, d, fmt);
    var after := AfterItem(f, next, d, fmt, post);
    FirstByte(f, v, d, fmt);
    ItemsSplit(f, items, d, fmt, post);
    SkipBlank(w, r + after);
    AfterItemStarts(f, next, d, fmt, post);
    ValueRoundTrip(f, v, d, fmt, after);
    if next.Item? {
      ItemsRoundTrip(f, next, d, fmt, Comma(fmt)[1..], post);
    }
  }

  /** What follows an element. */
  function AfterItem(f: Floats, next: Items, d: nat, fmt: bool, post: seq<byte>): seq<byte> {
    (if next.NoItems? then [] else Comma(fmt)) + (RenderItems(f, next, d, fmt) + [0x5D] + post)
  }

  lemma {:induction false} ItemsSplit(f: Floats, items: Items, d: nat, fmt: bool, post: seq<byte>)
    requires items.Item?
    ensures RenderItems(f, items, d, fmt) + [0x5D] + post
            == Render(f, items.value, d, fmt) + AfterItem(f, items.next, d, fmt, post)
  {
    hide Render;
  }

  lemma {:induction false} AfterItemStarts(f: Floats, next: Items, d: nat, fmt: bool, post: seq<byte>)
    ensures var t := AfterItem(f, next, d, fmt, post);
            && t != [] && Stops(t) && Skip(t) == t
            && (if next.NoItems? then t == [0x5D] + post
                else t[0] == 0x2C && t[1..] == Comma(fmt)[1..] + (RenderItems(f, next, d, fmt) + [0x5D] + post))
  {
    var t := AfterItem(f, next, d, fmt, post);
    if next.NoItems? { assert t == [0x5D] + post; }
    assert [] + t == t;
    SkipBlank([], t);
  }

  lemma {:induction false} ObjectRoundTrip(f: Floats, ms: Members, d: nat, fmt: bool, post: seq<byte>)
    requires PlainMembers(ms) && d + 1 + MembersDepth(ms) <= NESTING_LIMIT
    ensures ParseValue(f, Render(f, Object(ms), d, fmt) + post, d) == Ok(Object(ms), post)
    decreases ms, 2
  {
    hide ParseValue, ParseMembers, RenderMembers, Skip, Render, HeadText;
    var close := Indent(d, fmt);
    var s := Render(f, Object(ms), d, fmt) + post;
    var rest := (if ms.NoMembers? then [] else HeadText(f, ms, d + 1, fmt) + close) + [0x7D] + post;
    var w := ObjectText(f, ms, d, fmt, post);
    ObjectGrammar(f, s, d);
    SkipBlank(w, rest);
    if ms.Member? {
      MembersRoundTrip(f, ms, d + 1, fmt, [], close, post);
      assert [] + rest == rest;
    }
  }

  /** The text of an object: its brace, blanks, then its first member or its end. */
  lemma {:induction false} ObjectText(f: Floats, ms: Members, d: nat, fmt: bool, post: seq<byte>) returns (w: seq<byte>)
    ensures var rest := (if ms.NoMembers? then [] else HeadText(f, ms, d + 1, fmt) + Indent(d, fmt)) + [0x7D] + post;
            var s := Render(f, Object(ms), d, fmt) + post;
            && rest != [] && rest[0] > 32 && s != [] && s[0] == 0x7B && s[1..] == w + rest
            && (rest[0] == 0x7D <==> ms.NoMembers?)
    ensures Blank(w)
  {
    hide RenderMembers, HeadText;
    var nl := if fmt then [0x0A] else [];
    var rest := (if ms.NoMembers? then [] else HeadText(f, ms, d + 1, fmt) + Indent(d, fmt)) + [0x7D] + post;
    var s := Render(f, Object(ms), d, fmt) + post;
    if ms.NoMembers? {
      NoMembersText(f, d + 1, fmt);
      w := nl + Indent(d, fmt);
    } else {
      HeadTextIs(f, ms, d + 1, fmt);
      w := nl + Indent(d + 1, fmt);
    }
    assert s[1..] == w + rest;
  }

  lemma {:induction false} NoMembersText(f: Floats, d: nat, fmt: bool)
    ensures RenderMembers(f, NoMembers, d, fmt) == []
  {
  }

  /** The text of a member list after the indentation of its first line. */
  function HeadText(f: Floats, ms: Members, d: nat, fmt: bool): (t: seq<byte>)
    requires ms.Member?
    ensures t != [] && t[0] == 0x22
  {
    Quoted(ms.name) + Colon(fmt) + Render(f, ms.value, d, fmt)
    + MemberEnd(ms.next.NoMembers?, fmt) + RenderMembers(f, ms.next, d, fmt)
  }

  function Indent(d: nat, fmt: bool): seq<byte> { if fmt then Tabs(d) else [] }

  lemma {:induction false} HeadTextIs(f: Floats, ms: Members, d: nat, fmt: bool)
    requires ms.Member?
    ensures RenderMembers(f, ms, d, fmt) == Indent(d, fmt) + HeadText(f, ms, d, fmt)
  {
    hide Render, Quoted, Tabs;
    var q := Quoted(ms.name);
    var a := Indent(d, fmt);
    var rest := RenderMembers(f, ms.next, d, fmt);
    var b := MemberEnd(ms.next.NoMembers?, fmt);
    var v := Render(f, ms.value, d, fmt);
    assert a + q + Colon(fmt) + v + b + rest == a + (q + Colon(fmt) + v + b + rest);
  }

  lemma {:induction false} MembersRoundTrip(f: Floats, ms: Members, d: nat, fmt: bool, w: seq<byte>, close: seq<byte>, post: seq<byte>)
    requires PlainMembers(ms) && ms.Member? && d + MembersDepth(ms) <= NESTING_LIMIT
    requires Blank(w) && Blank(close)
    ensures ParseMembers(f, w + (HeadText(f, ms, d, fmt) + close + [0x7D] + post), d) == Ok(ms, post)
    decreases ms, 1
  {
    hide ParseValue, ParseString, Render, RenderMembers, Skip, Quoted, Tabs, HeadText;
    var Member(name, v, next) := ms;
    var r := Render(f, v, d, fmt);
    var after := AfterValue(f, next, d, fmt, close, post);
    var c := Colon(fmt)[1..];
    HeadSplit(f, ms, d, fmt, close, post);
    QuoteFirst(name, []);
    var afterName := Colon(fmt) + (r + after);
    var s := Quoted(name) + afterName;
    SkipBlank(w, s);
    StringRoundTrip(name, afterName);
    assert [] + afterName == afterName;
    SkipBlank([], afterName);
    FirstByte(f, v, d, fmt);
    assert afterName[1..] == c + (r + after);
    SkipBlank(c, r + after);
    AfterStops(f, next, d, fmt, close, post);
    ValueRoundTrip(f, v, d, fmt, after);
    if next.NoMembers? {
      LastAfter(f, d, fmt, close, post);
    } else {
      var w' := MoreAfter(f, next, d, fmt, close, post);
      MembersRoundTrip(f, next, d, fmt, w', close, post);
    }
  }

  /** What follows a member's value. */
  function AfterValue(f: Floats, next: Members, d: nat, fmt: bool, close: seq<byte>, post: seq<byte>): seq<byte> {
    MemberEnd(next.NoMembers?, fmt) + RenderMembers(f, next, d, fmt) + close + [0x7D] + post
  }

  lemma {:induction false} HeadSplit(f: Floats, ms: Members, d: nat, fmt: bool, close: seq<byte>, post: seq<byte>)
    requires ms.Member?
    ensures HeadText(f, ms, d, fmt) + close + [0x7D] + post
            == Quoted(ms.name) + (Colon(fmt) + (Render(f, ms.value, d, fmt) + AfterValue(f, ms.next, d, fmt, close, post)))
  {
    hide Render, Quoted, RenderMembers;
  }

  lemma {:induction false} AfterStops(f: Floats, next: Members, d: nat, fmt: bool, close: seq<byte>, post: seq<byte>)
    requires Blank(close)
    ensures Stops(AfterValue(f, next, d, fmt, close, post))
  {
    if next.NoMembers? {
      NoMembersText(f, d, fmt);
      if !fmt && close == [] { assert AfterValue(f, next, d, fmt, close, post) == [0x7D] + post; }
    }
  }

  lemma {:induction false} LastAfter(f: Floats, d: nat, fmt: bool, close: seq<byte>, post: seq<byte>)
    requires Blank(close)
    ensures Skip(AfterValue(f, NoMembers, d, fmt, close, post)) == [0x7D] + post
  {
    NoMembersText(f, d, fmt);
    var w := MemberEnd(true, fmt) + close;
    assert AfterValue(f, NoMembers, d, fmt, close, post) == w + ([0x7D] + post);
    SkipBlank(w, [0x7D] + post);
  }

  lemma {:induction false} MoreAfter(f: Floats, next: Members, d: nat, fmt: bool, close: seq<byte>, post: seq<byte>)
      returns (w: seq<byte>)
    requires next.Member?
    ensures var t := AfterValue(f, next, d, fmt, close, post);
            Skip(t) == t && t != [] && t[0] == 0x2C && t[1..] == w + (HeadText(f, next, d, fmt) + close + [0x7D] + post)
    ensures Blank(w)
  {
    hide RenderMembers, HeadText, Skip, Render, Quoted, Tabs;
    HeadTextIs(f, next, d, fmt);
    w := (if fmt then [0x0A] else []) + Indent(d, fmt);
    var t := AfterValue(f, next, d, fmt, close, post);
    assert t[1..] == w + (HeadText(f, next, d, fmt) + close + [0x7D] + post);
    assert [] + t == t;
    SkipBlank([], t);
  }

  /** cJSON_Parse inverts cJSON_Print and cJSON_PrintUnformatted: the text of a
      plain value whose nesting the printer accepts parses to that value. */
  lemma {:induction false} TextRoundTrip(f: Floats, v: Value, fmt: bool, requireEnd: bool)
    requires Plain(v) && Depth(v) <= NESTING_LIMIT
    ensures ParseText(f, Render(f, v, 0, fmt) + [0], requireEnd) == Ok(v, [0])
  {
    hide ParseValue, Render, Plain;
    var r := Render(f, v, 0, fmt);
    FirstByte(f, v, 0, fmt);
    var s := r + [0];
    assert s[0] == r[0] && [] + s == s;
    SkipBlank([], s);
    ValueRoundTrip(f, v, 0, fmt, [0]);
  }

  /** The parser keeps the printer's nesting limit: what it accepts at depth d
      nests no deeper than the limit. */
  lemma {:induction false} ParsedDepth(f: Floats, s: seq<byte>, d: nat)
    requires ParseValue(f, s, d).Ok?
    ensures var v := ParseValue(f, s, d).value; Depth(v) == 0 || d + Depth(v) <= NESTING_LIMIT
    decreases |s|, 1
  {
    hide ParseString, ParseNumber, ParseItems, ParseMembers;
    var v := ParseValue(f, s, d).value;
    if s != [] && s[0] == 0x5B {
      var t := Skip(s[1..]);
      if t[0] != 0x5D { ParsedItemsDepth(f, t, d + 1); }
    } else if s != [] && s[0] == 0x7B {
      var t := Skip(s[1..]);
      if t[0] != 0x7D { ParsedMembersDepth(f, t, d + 1); }
    } else if s != [] && (s[0] == 0x2D || 0x30 <= s[0] <= 0x39) {
      NumberDepth(f, s);
    }
  }

  lemma {:induction false} NumberDepth(f: Floats, s: seq<byte>)
    ensures ParseNumber(f, s).Ok? ==> ParseNumber(f, s).value.Number?
  {
  }

  lemma {:induction false} ParsedItemsDepth(f: Floats, s: seq<byte>, d: nat)
    requires ParseItems(f, s, d).Ok? && d <= NESTING_LIMIT
    ensures d + ItemsDepth(ParseItems(f, s, d).value) <= NESTING_LIMIT
    decreases |s|, 2
  {
    hide ParseValue, Skip;
    ParsedDepth(f, Skip(s), d);
    var t := Skip(ParseValue(f, Skip(s), d).rest);
    if t[0] == 0x2C { ParsedItemsDepth(f, t[1..], d); }
  }

  lemma {:induction false} ParsedMembersDepth(f: Floats, s: seq<byte>, d: nat)
    requires ParseMembers(f, s, d).Ok? && d <= NESTING_LIMIT
    ensures d + MembersDepth(ParseMembers(f, s, d).value) <= NESTING_LIMIT
    decreases |s|, 2
  {
    hide ParseValue, ParseString, Skip;
    var c := Skip(ParseString(Skip(s)).rest);
    ParsedDepth(f, Skip(c[1..]), d);
    var t := Skip(ParseValue(f, Skip(c[1..]), d).rest);
    if t[0] == 0x2C { ParsedMembersDepth(f, t[1..], d); }
  }
}
