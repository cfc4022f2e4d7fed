/**
 The two layouts of cJSON's printer: that the formatted text is the compact one with
 blanks between its tokens, what both look like on one value, and how deep a text
 may nest.
 */
module JsonLayout {
  import opened Bytes
  import opened Json
  import opened JsonRoundTrip

  // ---------- blanks ----------

  /** s without the blanks outside its strings; inside says whether s begins in one. */
  function Strip(s: seq<byte>, inside: bool): seq<byte>
    decreases |s|
  {
    if s == [] then []
    else if inside && s[0] == 0x5C && |s| > 1 then s[..2] + Strip(s[2..], true)
    else if s[0] == 0x22 then [s[0]] + Strip(s[1..], !inside)
    else if !inside && s[0] <= 0x20 then Strip(s[1..], false)
    else [s[0]] + Strip(s[1..], inside)
  }

  /** Bytes that are neither blank nor a quote. */
  predicate Solid(a: seq<byte>) { forall i :: 0 <= i < |a| ==> a[i] > 0x20 && a[i] != 0x22 }

  lemma {:induction false} StripSolid(a: seq<byte>, s: seq<byte>)
    requires Solid(a)
    ensures Strip(a + s, false) == a + Strip(s, false)
  {
    if a == [] {
      assert a + s == s && a + Strip(s, false) == Strip(s, false);
    } else {
      StripSolid(a[1..], s);
      assert (a + s)[1..] == a[1..] + s;
      assert [a[0]] + (a[1..] + Strip(s, false)) == a + Strip(s, false);
    }
  }

  lemma {:induction false} StripBlank(w: seq<byte>, s: seq<byte>)
    requires Blank(w)
    ensures Strip(w + s, false) == Strip(s, false)
  {
    if w == [] {
      assert w + s == s;
    } else {
      StripBlank(w[1..], s);
      assert (w + s)[1..] == w[1..] + s;
    }
  }

  /** Bytes that neither end a string nor begin an escape. */
  lemma {:induction false} StripInside(a: seq<byte>, s: seq<byte>)
    requires forall i :: 0 <= i < |a| ==> a[i] != 0x22 && a[i] != 0x5C
    ensures Strip(a + s, true) == a + Strip(s, true)
  {
    if a == [] {
      assert a + s == s && a + Strip(s, true) == Strip(s, true);
    } else {
      StripInside(a[1..], s);
      assert (a + s)[1..] == a[1..] + s;
      assert [a[0]] + (a[1..] + Strip(s, true)) == a + Strip(s, true);
    }
  }

  lemma {:induction false} StripEscaped(c: byte, s: seq<byte>)
    ensures Strip(EscapeByte(c) + s, true) == EscapeByte(c) + Strip(s, true)
  {
    var e := EscapeByte(c);
    if |e| == 1 {
      StripInside(e, s);
    } else {
      var t := e + s;
      assert t[..2] == e[..2] && t[2..] == e[2..] + s;
      StripInside(e[2..], s);
      assert e[..2] + (e[2..] + Strip(s, true)) == e + Strip(s, true);
    }
  }

  lemma {:induction false} StripEscape(x: seq<byte>, s: seq<byte>)
    ensures Strip(Escape(x) + s, true) == Escape(x) + Strip(s, true)
  {
    hide EscapeByte, Strip;
    if x == [] {
      assert Escape(x) + s == s && Escape(x) + Strip(s, true) == Strip(s, true);
    } else {
      StripEscape(x[1..], s);
      StripEscaped(x[0], Escape(x[1..]) + s);
      var e, r := EscapeByte(x[0]), Escape(x[1..]);
      assert Escape(x) + s == e + (r + s) && e + (r + Strip(s, true)) == Escape(x) + Strip(s, true);
    }
  }

  /** A string keeps all its bytes. */
  lemma {:induction false} StripQuoted(x: seq<byte>, s: seq<byte>)
    ensures Strip(Quoted(x) + s, false) == Quoted(x) + Strip(s, false)
  {
    hide Escape;
    var t := Quoted(x) + s;
    var e := Escape(x);
    assert t[0] == 0x22 && t[1..] == e + ([0x22] + s);
    StripEscape(x, [0x22] + s);
    assert ([0x22] + s)[1..] == s;
    assert [0x22] + (e + ([0x22] + Strip(s, false))) == Quoted(x) + Strip(s, false);
  }

  lemma {:induction false} SolidInt(n: int)
    ensures Solid(IntText(n))
  {
  }

  /** The text of a value in either layout, wherever it stands, is its compact text
      with blanks between the tokens. */
  lemma {:induction false} StripValue(f: Floats, v: Value, d: nat, d': nat, fmt: bool, s: seq<byte>)
    requires Plain(v)
    ensures Strip(Render(f, v, d, fmt) + s, false) == Render(f, v, d', false) + Strip(s, false)
    decreases v, 0
  {
    hide Strip, IntText, Quoted, RenderItems, RenderMembers;
    match v
    case Null => StripSolid(NULL_TEXT, s);
    case False => StripSolid(FALSE_TEXT, s);
    case True => StripSolid(TRUE_TEXT, s);
    case Number(x) =>
      SolidInt(IntOf(x.value));
      StripSolid(IntText(IntOf(x.value)), s);
    case Text(t) => StripQuoted(t, s);
    case Array(items) => StripArray(f, items, d, d', fmt, s);
    case Object(ms) => StripObject(f, ms, d, d', fmt, s);
  }

  lemma {:induction false} StripArray(f: Floats, items: Items, d: nat, d': nat, fmt: bool, s: seq<byte>)
    requires PlainItems(items)
    ensures Strip(Render(f, Array(items), d, fmt) + s, false) == Render(f, Array(items), d', false) + Strip(s, false)
    decreases items, 2
  {
    hide Strip, RenderItems;
    var body := RenderItems(f, items, d + 1, fmt);
    StripItems(f, items, d + 1, d' + 1, fmt, [0x5D] + s);
    StripSolid([0x5D], s);
    StripSolid([0x5B], body + ([0x5D] + s));
    Three([0x5B], body, [0x5D], s);
    Three([0x5B], RenderItems(f, items, d' + 1, false), [0x5D], Strip(s, false));
  }

  lemma {:induction false} Three(a: seq<byte>, b: seq<byte>, c: seq<byte>, s: seq<byte>)
    ensures a + b + c + s == a + (b + (c + s))
  {
  }

  lemma {:induction false} StripItems(f: Floats, items: Items, d: nat, d': nat, fmt: bool, s: seq<byte>)
    requires PlainItems(items)
    ensures Strip(RenderItems(f, items, d, fmt) + s, false) == RenderItems(f, items, d', false) + Strip(s, false)
    decreases items, 1
  {
    hide Strip, Render;
    match items
    case NoItems => Nothing(s);
    case Item(v, next) =>
      var comma := if next.NoItems? then [] else Comma(fmt);
      var more := RenderItems(f, next, d, fmt) + s;
      StripItems(f, next, d, d', fmt, s);
      StripComma(next.NoItems?, fmt, more);
      StripValue(f, v, d, d', fmt, comma + more);
      Three(Render(f, v, d, fmt), comma, RenderItems(f, next, d, fmt), s);
      Three(Render(f, v, d', false), if next.NoItems? then [] else Comma(false), RenderItems(f, next, d', false),
            Strip(s, false));
  }

  lemma {:induction false} Nothing(s: seq<byte>)
    ensures [] + s == s && [] + Strip(s, false) == Strip(s, false)
  {
  }

  lemma {:induction false} StripComma(last: bool, fmt: bool, s: seq<byte>)
    ensures Strip((if last then [] else Comma(fmt)) + s, false) == (if last then [] else Comma(false)) + Strip(s, false)
  {
    hide Strip;
    var w := if fmt then [0x20] else [];
    if last {
      Nothing(s);
    } else {
      assert Comma(fmt) == [0x2C] + w;
      StripSeparator(0x2C, w, s);
    }
  }

  /** A separator and a blank behind it. */
  lemma {:induction false} StripSeparator(c: byte, w: seq<byte>, s: seq<byte>)
    requires c > 0x20 && c != 0x22 && Blank(w)
    ensures Strip(([c] + w) + s, false) == [c] + Strip(s, false)
  {
    hide Strip;
    StripSolid([c], w + s);
    StripBlank(w, s);
    assert ([c] + w) + s == [c] + (w + s);
  }

  lemma {:induction false} StripObject(f: Floats, ms: Members, d: nat, d': nat, fmt: bool, s: seq<byte>)
    requires PlainMembers(ms)
    ensures Strip(Render(f, Object(ms), d, fmt) + s, false) == Render(f, Object(ms), d', false) + Strip(s, false)
    decreases ms, 2
  {
    hide Strip, RenderMembers;
    var body := RenderMembers(f, ms, d + 1, fmt);
    var first, last := if fmt then [0x0A] else [], if fmt then Tabs(d) else [];
    var end := [0x7D] + s;
    StripSolid([0x7D], s);
    StripBlank(last, end);
    StripMembers(f, ms, d + 1, d' + 1, fmt, last + end);
    StripSeparator(0x7B, first, body + (last + end));
    Braces(first, body, last, s);
    Braces([], RenderMembers(f, ms, d' + 1, false), [], Strip(s, false));
  }

  lemma {:induction false} Braces(first: seq<byte>, body: seq<byte>, last: seq<byte>, s: seq<byte>)
    ensures [0x7B] + first + body + last + [0x7D] + s == ([0x7B] + first) + (body + (last + ([0x7D] + s)))
    ensures first == [] && last == [] ==> [0x7B] + first + body + last + [0x7D] + s == [0x7B] + (body + ([0x7D] + s))
  {
  }

  lemma {:induction false} StripMembers(f: Floats, ms: Members, d: nat, d': nat, fmt: bool, s: seq<byte>)
    requires PlainMembers(ms)
    ensures Strip(RenderMembers(f, ms, d, fmt) + s, false) == RenderMembers(f, ms, d', false) + Strip(s, false)
    decreases ms, 1
  {
    hide Strip, Render, Quoted;
    match ms
    case NoMembers => Nothing(s);
    case Member(name, v, next) =>
      var tabs, end := if fmt then Tabs(d) else [], MemberEnd(next.NoMembers?, fmt);
      var rest := RenderMembers(f, next, d, fmt);
      var value := Render(f, v, d, fmt) + (end + (rest + s));
      StripMembers(f, next, d, d', fmt, s);
      StripMemberEnd(next.NoMembers?, fmt, rest + s);
      StripValue(f, v, d, d', fmt, end + (rest + s));
      StripColon(fmt, value);
      StripQuoted(name, Colon(fmt) + value);
      StripBlank(tabs, Quoted(name) + (Colon(fmt) + value));
      Six(tabs, Quoted(name), Colon(fmt), Render(f, v, d, fmt), end, rest, s);
      Six([], Quoted(name), Colon(false), Render(f, v, d', false), MemberEnd(next.NoMembers?, false),
          RenderMembers(f, next, d', false), Strip(s, false));
  }

  lemma {:induction false} StripColon(fmt: bool, s: seq<byte>)
    ensures Strip(Colon(fmt) + s, false) == Colon(false) + Strip(s, false)
  {
    hide Strip;
    var w := if fmt then [0x09] else [];
    assert Colon(fmt) == [0x3A] + w;
    StripSeparator(0x3A, w, s);
  }

  lemma {:induction false} Six(a: seq<byte>, b: seq<byte>, c: seq<byte>, d: seq<byte>, e: seq<byte>, g: seq<byte>,
                               s: seq<byte>)
    ensures a + b + c + d + e + g + s == a + (b + (c + (d + (e + (g + s)))))
    ensures a == [] ==> a + b + c + d + e + g + s == b + (c + (d + (e + (g + s))))
  {
    var t := e + (g + s);
    Three(a + b + c + d, e, g, s);
    Three(a + b, c, d, t);
    assert a + b + (c + (d + t)) == a + (b + (c + (d + t)));
    assert a == [] ==> a + (b + (c + (d + t))) == b + (c + (d + t));
  }

  lemma {:induction false} StripMemberEnd(last: bool, fmt: bool, s: seq<byte>)
    ensures Strip(MemberEnd(last, fmt) + s, false) == MemberEnd(last, false) + Strip(s, false)
  {
    hide Strip;
    var w := if fmt then [0x0A] else [];
    if last {
      StripBlank(w, s);
      assert MemberEnd(last, fmt) + s == w + s && MemberEnd(last, false) + Strip(s, false) == Strip(s, false);
    } else {
      StripSeparator(0x2C, w, s);
      assert MemberEnd(last, false) == [0x2C];
    }
  }

  /** cJSON_Print and cJSON_PrintUnformatted write the same text but for blanks, of which
      the latter writes none. */
  lemma {:induction false} SameButBlanks(f: Floats, v: Value)
    requires Plain(v)
    ensures Strip(Render(f, v, 0, true), false) == Render(f, v, 0, false) == Strip(Render(f, v, 0, false), false)
  {
    hide Strip, Render;
    StripValue(f, v, 0, 0, true, []);
    StripValue(f, v, 0, 0, false, []);
    assert Render(f, v, 0, true) + [] == Render(f, v, 0, true) && Render(f, v, 0, false) + [] == Render(f, v, 0, false);
    StripNothing();
  }

  lemma {:induction false} StripNothing()
    ensures Strip([], false) == []
  {
  }

  // ---------- one value in both layouts ----------

  /** {"a":[1,{"b":-20},null],"c":{}} as a value. */
  const B: Members := Member([0x62], Number(Finite(-20.0)), NoMembers)

  const A: Items := Item(Number(Finite(1.0)), Item(Object(B), Item(Null, NoItems)))

  const SAMPLE: Value := Object(Member([0x61], Array(A), Member([0x63], Object(NoMembers), NoMembers)))

  /** What stands for the name x, in quotes. */
  lemma {:induction false} NameText(x: byte)
    requires 0x61 <= x <= 0x7A
    ensures Quoted([x]) == [0x22, x, 0x22]
  {
    assert Escape([x][1..]) == [];
    assert EscapeByte(x) + [] == [x];
  }

  lemma {:induction false} Numbers(f: Floats)
    ensures NumberText(f, Finite(1.0)) == [0x31] && NumberText(f, Finite(-20.0)) == [0x2D, 0x32, 0x30]
  {
    assert Decimal(20) == Decimal(2) + [0x30];
  }

  /** {"b":-20} as an element two deep. */
  const B_LINES: seq<byte> :=
    [0x7B, 0x0A] + [0x09, 0x09, 0x09] + [0x22, 0x62, 0x22] + [0x3A, 0x09] + [0x2D, 0x32, 0x30]
    + [0x0A] + [0x09, 0x09] + [0x7D]

  const B_LINE: seq<byte> := [0x7B] + [0x22, 0x62, 0x22] + [0x3A] + [0x2D, 0x32, 0x30] + [0x7D]

  lemma {:induction false} InnerLines(f: Floats)
    ensures Render(f, Object(B), 2, true) == B_LINES
  {
    hide Quoted, NumberText, Tabs;
    NameText(0x62);
    Numbers(f);
    TabsAre();
    assert RenderMembers(f, B, 3, true)
        == [0x09, 0x09, 0x09] + [0x22, 0x62, 0x22] + [0x3A, 0x09] + [0x2D, 0x32, 0x30] + [0x0A] + [];
  }

  lemma {:induction false} InnerLine(f: Floats)
    ensures Render(f, Object(B), 2, false) == B_LINE
  {
    hide Quoted, NumberText, Tabs;
    NameText(0x62);
    Numbers(f);
    assert RenderMembers(f, B, 3, false) == [] + [0x22, 0x62, 0x22] + [0x3A] + [0x2D, 0x32, 0x30] + [] + [];
  }

  /** [1, {...}, null]. */
  const A_LINES: seq<byte> := [0x5B] + ([0x31] + [0x2C, 0x20] + (B_LINES + [0x2C, 0x20] + [0x6E, 0x75, 0x6C, 0x6C])) + [0x5D]

  const A_LINE: seq<byte> := [0x5B] + ([0x31] + [0x2C] + (B_LINE + [0x2C] + [0x6E, 0x75, 0x6C, 0x6C])) + [0x5D]

  lemma {:induction false} MiddleText(f: Floats)
    ensures Render(f, Array(A), 1, true) == A_LINES && Render(f, Array(A), 1, false) == A_LINE
  {
    hide NumberText, RenderMembers, B, B_LINES, B_LINE;
    Numbers(f);
    InnerLines(f);
    InnerLine(f);
    ItemsText(f, true, B_LINES);
    ItemsText(f, false, B_LINE);
  }

  lemma {:induction false} ItemsText(f: Floats, fmt: bool, b: seq<byte>)
    requires Render(f, Object(B), 2, fmt) == b
    ensures RenderItems(f, A, 2, fmt) == [0x31] + Comma(fmt) + (b + Comma(fmt) + [0x6E, 0x75, 0x6C, 0x6C])
  {
    hide NumberText, RenderMembers, B;
    Numbers(f);
    var last := Item(Null, NoItems);
    assert RenderItems(f, last, 2, fmt) == [0x6E, 0x75, 0x6C, 0x6C] + [] + [];
    assert RenderItems(f, Item(Object(B), last), 2, fmt) == b + Comma(fmt) + [0x6E, 0x75, 0x6C, 0x6C];
  }

  /** The lines {, "a": [...], "c": {, } and }, each behind its tabs. */
  const LINES: seq<byte> :=
    [0x7B, 0x0A]
    + ([0x09] + [0x22, 0x61, 0x22] + [0x3A, 0x09] + A_LINES + [0x2C, 0x0A]
       + ([0x09] + [0x22, 0x63, 0x22] + [0x3A, 0x09] + [0x7B, 0x0A, 0x09, 0x7D] + [0x0A]))
    + [0x7D]

  const LINE: seq<byte> :=
    [0x7B] + ([0x22, 0x61, 0x22] + [0x3A] + A_LINE + [0x2C] + ([0x22, 0x63, 0x22] + [0x3A] + [0x7B, 0x7D])) + [0x7D]

  /** How the sample is printed: formatted with a line for each member, one tab per level,
      a tab behind the colon and a space behind the comma of an array; or on one line. */
  lemma {:induction false} SampleText(f: Floats)
    ensures Render(f, SAMPLE, 0, true) == LINES
    ensures Render(f, SAMPLE, 0, false) == LINE
  {
    hide RenderItems, Quoted, Tabs, A, A_LINES, A_LINE;
    MiddleText(f);
    NameText(0x61);
    TabsAre();
    LastMember(f);
    FirstMember(f, A_LINES, A_LINE);
  }

  lemma {:induction false} LastMember(f: Floats)
    ensures var m := Member([0x63], Object(NoMembers), NoMembers);
            && RenderMembers(f, m, 1, true) == [0x09] + [0x22, 0x63, 0x22] + [0x3A, 0x09] + [0x7B, 0x0A, 0x09, 0x7D] + [0x0A]
            && RenderMembers(f, m, 1, false) == [0x22, 0x63, 0x22] + [0x3A] + [0x7B, 0x7D]
  {
    hide Quoted, Tabs;
    NameText(0x63);
    TabsAre();
    assert Render(f, Object(NoMembers), 1, true) == [0x7B, 0x0A, 0x09, 0x7D];
    assert Render(f, Object(NoMembers), 1, false) == [0x7B, 0x7D];
  }

  lemma {:induction false} FirstMember(f: Floats, lines: seq<byte>, line: seq<byte>)
    requires Render(f, Array(A), 1, true) == lines && Render(f, Array(A), 1, false) == line
    ensures var m := Member([0x63], Object(NoMembers), NoMembers); var ms := Member([0x61], Array(A), m);
            && RenderMembers(f, ms, 1, true)
               == [0x09] + [0x22, 0x61, 0x22] + [0x3A, 0x09] + lines + [0x2C, 0x0A] + RenderMembers(f, m, 1, true)
            && RenderMembers(f, ms, 1, false) == [0x22, 0x61, 0x22] + [0x3A] + line + [0x2C] + RenderMembers(f, m, 1, false)
  {
    hide Quoted, Tabs, RenderItems, A;
    NameText(0x61);
    TabsAre();
  }

  lemma {:induction false} TabsAre()
    ensures Tabs(0) == [] && Tabs(1) == [0x09] && Tabs(2) == [0x09, 0x09] && Tabs(3) == [0x09, 0x09, 0x09]
  {
  }

  // ---------- nesting ----------

  /** n arrays in one another. */
  function Nest(n: nat): seq<byte> {
    if n == 0 then [] else [0x5B] + Nest(n - 1) + [0x5D]
  }

  /** Arrays in arrays are read to a depth of a thousand and no deeper. */
  lemma {:induction false} DeepArrays(f: Floats, n: nat, d: nat, post: seq<byte>)
    requires n >= 1
    ensures var r := ParseValue(f, Nest(n) + post, d);
            if d + n <= 1000 then r.Ok? && r.rest == post && Depth(r.value) == n else r == Fail
  {
    hide ParseValue, ParseItems, Skip;
    var s, t := Nest(n) + post, Nest(n - 1) + ([0x5D] + post);
    assert s[0] == 0x5B && s[1..] == t;
    ArrayGrammar(f, s, d);
    NestFirst(n - 1, [0x5D] + post);
    if n == 1 {
      assert t == [0x5D] + post;
    } else {
      DeepArrays(f, n - 1, d + 1, [0x5D] + post);
      OneItem(f, t, d + 1, post);
      var inner := ParseValue(f, t, d + 1);
      assert inner.Ok? ==> ItemsDepth(Item(inner.value, NoItems)) == n - 1;
    }
  }

  lemma {:induction false} NestFirst(n: nat, s: seq<byte>)
    requires s != [] && s[0] > 0x20
    ensures var t := Nest(n) + s; t != [] && t[0] == (if n == 0 then s[0] else 0x5B) && Skip(t) == t
  {
    hide Skip;
    var t := Nest(n) + s;
    assert [] + t == t;
    SkipBlank([], t);
  }

  /** One element and the end of its array. */
  lemma {:induction false} OneItem(f: Floats, t: seq<byte>, d: nat, post: seq<byte>)
    requires Skip(t) == t
    requires ParseValue(f, t, d) == Fail || (ParseValue(f, t, d).Ok? && ParseValue(f, t, d).rest == [0x5D] + post)
    ensures ParseItems(f, t, d) == match ParseValue(f, t, d) case Fail => Fail case Ok(v, _) => Ok(Item(v, NoItems), post)
  {
    hide ParseValue, Skip;
    assert [] + ([0x5D] + post) == [0x5D] + post;
    SkipBlank([], [0x5D] + post);
  }

  // ---------- numbers ----------

  predicate AllDigits(a: seq<byte>) { a != [] && forall i :: 0 <= i < |a| ==> 0x30 <= a[i] <= 0x39 }

  /** A number of section 6 of RFC 8259: an optional minus, digits, an optional fraction,
      an optional exponent. */
  predicate IsNumber(minus: seq<byte>, whole: seq<byte>, frac: seq<byte>, exp: seq<byte>) {
    && (minus == [] || minus == [0x2D]) && AllDigits(whole)
    && (frac == [] || (frac[0] == 0x2E && AllDigits(frac[1..])))
    && (exp == [] || ((exp[0] == 0x65 || exp[0] == 0x45) && (AllDigits(exp[1..])
        || (|exp| > 1 && (exp[1] == 0x2B || exp[1] == 0x2D) && AllDigits(exp[2..])))))
  }

  /** What may follow it: the end, a blank, a comma or a closing bracket. */
  predicate EndsNumber(post: seq<byte>) {
    post == [] || post[0] in {0x20, 0x09, 0x0A, 0x0D, 0x2C, 0x5D, 0x7D}
  }

  /** parse_number collects every number whole. */
  lemma {:induction false} WholeNumber(minus: seq<byte>, whole: seq<byte>, frac: seq<byte>, exp: seq<byte>, post: seq<byte>)
    requires IsNumber(minus, whole, frac, exp) && EndsNumber(post)
    ensures NumberRun(minus + whole + frac + exp + post) == |minus + whole + frac + exp|
  {
    AllCollected(minus);
    DigitsCollected(whole);
    if frac != [] {
      DigitsCollected(frac[1..]);
      assert frac == [frac[0]] + frac[1..];
    }
    if exp != [] { ExponentCollected(exp); }
    RunOf(minus + whole + frac + exp, post);
  }

  lemma {:induction false} AllCollected(minus: seq<byte>)
    requires minus == [] || minus == [0x2D]
    ensures forall i :: 0 <= i < |minus| ==> IsNumberByte(minus[i])
  {
  }

  lemma {:induction false} DigitsCollected(a: seq<byte>)
    requires AllDigits(a)
    ensures forall i :: 0 <= i < |a| ==> IsNumberByte(a[i])
  {
  }

  lemma {:induction false} ExponentCollected(exp: seq<byte>)
    requires exp != [] && IsNumber([], [0x30], [], exp)
    ensures forall i :: 0 <= i < |exp| ==> IsNumberByte(exp[i])
  {
    if AllDigits(exp[1..]) {
      DigitsCollected(exp[1..]);
      assert exp == [exp[0]] + exp[1..];
    } else {
      DigitsCollected(exp[2..]);
      assert exp == [exp[0], exp[1]] + exp[2..];
    }
  }
}
