/**
 The JSON text format as cJSON.c prints and parses it (RFC 8259): values, the
 renderer that print_value follows, and the grammar that parse_value accepts.
 */
module Json {
  import opened Bytes
  import Utf8

  const NESTING_LIMIT: nat := 1000
  const INT_MIN: int := -0x8000_0000

  /** A cJSON item by its type. */
  datatype Value =
    | Null
    | False
    | True
    | Number(double: Double)
    | Text(valuestring: seq<byte>)
    | Array(child: Items)
    | Object(members: Members)

  /** The child list of an array, and of an object. */
  datatype Items = NoItems | Item(value: Value, next: Items)
  datatype Members = NoMembers | Member(name: seq<byte>, value: Value, next: Members)

  /** A valuedouble; NonFinite stands for NaN and the infinities. */
  datatype Double = Finite(value: real) | NonFinite

  /** The C library's floating point output and input: the text of a number that
      is not a 32-bit integer, and strtod, for what is not a plain integer, with the
      count of bytes it used. */
  datatype Floats = Floats(text: real -> seq<byte>, scan: seq<byte> -> Option<(Double, nat)>)

  predicate NulFree(s: seq<byte>) {
    forall i :: 0 <= i < |s| ==> s[i] != 0
  }

  // ---------- numbers ----------

  /** valueint: the number cut to an int, saturating. */
  function IntOf(d: real): (n: int)
    ensures INT_MIN <= n <= INT_MAX
  {
    if d >= INT_MAX as real then INT_MAX
    else if d <= INT_MIN as real then INT_MIN
    else if d >= 0.0 then d.Floor
    else -(-d).Floor
  }

  function Decimal(n: nat): (s: seq<byte>)
    ensures |s| >= 1 && forall i :: 0 <= i < |s| ==> 0x30 <= s[i] <= 0x39
  {
    if n < 10 then [0x30 + n] else Decimal(n / 10) + [0x30 + n % 10]
  }

  /** %d. */
  function IntText(n: int): (s: seq<byte>)
    ensures |s| >= 1 && (s[0] == 0x2D || 0x30 <= s[0] <= 0x39)
    ensures forall i :: 0 <= i < |s| ==> IsNumberByte(s[i])
  {
    if n < 0 then [0x2D] + Decimal(-n) else Decimal(n)
  }

  function NumberText(f: Floats, d: Double): seq<byte> {
    match d
    case NonFinite => NULL_TEXT
    case Finite(x) => if x == IntOf(x) as real then IntText(IntOf(x)) else f.text(x)
  }

  /** The number that decimal digits spell, the last one being the units. */
  function DigitsValue(s: seq<byte>): Option<nat> {
    if s == [] then Some(0)
    else
      var last: int := s[|s| - 1];
      match DigitsValue(s[..|s| - 1])
      case None => None
      case Some(n) => if 0x30 <= last <= 0x39 then Some(n * 10 + (last - 0x30)) else None
  }

  /** The integer that s spells, if it is a plain integer: an optional minus and digits. */
  function IntegerOf(s: seq<byte>): Option<int> {
    if s == [] || s == [0x2D] then None
    else if s[0] == 0x2D then
      match DigitsValue(s[1..]) case None => None case Some(n) => Some(0 - n as int)
    else
      match DigitsValue(s) case None => None case Some(n) => Some(n)
  }

  /** Every integer up to this is a double. */
  const EXACT_LIMIT: int := 0x20_0000_0000_0000

  lemma {:induction false} DecimalBack(n: nat)
    ensures DigitsValue(Decimal(n)) == Some(n)
  {
    var d := Decimal(n);
    if n >= 10 {
      assert d[..|d| - 1] == Decimal(n / 10);
      DecimalBack(n / 10);
    } else {
      assert d[..0] == [];
    }
  }

  /** The text of an integer spells it. */
  lemma {:induction false} IntegerBack(n: int)
    ensures IntegerOf(IntText(n)) == Some(n)
  {
    if n < 0 {
      DecimalBack(-n);
      assert IntText(n)[1..] == Decimal(-n);
    } else {
      DecimalBack(n);
    }
  }

  /** The bytes parse_number collects: digits, + - e E and the point. */
  predicate IsNumberByte(c: byte) {
    0x30 <= c <= 0x39 || c == 0x2B || c == 0x2D || c == 0x65 || c == 0x45 || c == 0x2E
  }

  function NumberRun(s: seq<byte>): (n: nat)
    ensures n <= |s|
  {
    if s != [] && IsNumberByte(s[0]) then 1 + NumberRun(s[1..]) else 0
  }

  // ---------- strings ----------

  /** Lower-case hexadecimal digit. */
  function Hex(n: nat): byte
    requires n < 16
  {
    if n < 10 then 0x30 + n else 0x61 + (n - 10)
  }

  /** The letter of a two-character escape, or 0. */
  function ShortEscape(c: byte): byte {
    if c == 0x22 then 0x22 else if c == 0x5C then 0x5C
    else if c == 0x08 then 0x62 else if c == 0x0C then 0x66 else if c == 0x0A then 0x6E
    else if c == 0x0D then 0x72 else if c == 0x09 then 0x74
    else 0
  }

  /** One byte of a string, escaped where JSON needs it. */
  function EscapeByte(c: byte): (r: seq<byte>)
    ensures 1 <= |r| <= 6
  {
    if ShortEscape(c) != 0 then [0x5C, ShortEscape(c)]
    else if c < 32 then [0x5C, 0x75, 0x30, 0x30, Hex(c / 16), Hex(c % 16)]
    else [c]
  }

  function Escape(s: seq<byte>): seq<byte> {
    if s == [] then [] else EscapeByte(s[0]) + Escape(s[1..])
  }

  function Quoted(s: seq<byte>): seq<byte> {
    [0x22] + Escape(s) + [0x22]
  }

  // ---------- the renderer ----------

  const NULL_TEXT: seq<byte> := [0x6E, 0x75, 0x6C, 0x6C]
  const FALSE_TEXT: seq<byte> := [0x66, 0x61, 0x6C, 0x73, 0x65]
  const TRUE_TEXT: seq<byte> := [0x74, 0x72, 0x75, 0x65]

  function Tabs(n: nat): (r: seq<byte>)
    ensures |r| == n && forall i :: 0 <= i < n ==> r[i] == 0x09
  {
    seq(n, _ => 0x09)
  }

  /** The text of v at nesting depth d; fmt is the formatted style. */
  function Render(f: Floats, v: Value, d: nat, fmt: bool): seq<byte> {
    match v
    case Null => NULL_TEXT
    case False => FALSE_TEXT
    case True => TRUE_TEXT
    case Number(x) => NumberText(f, x)
    case Text(s) => Quoted(s)
    case Array(items) => [0x5B] + RenderItems(f, items, d + 1, fmt) + [0x5D]
    case Object(ms) =>
      [0x7B] + (if fmt then [0x0A] else []) + RenderMembers(f, ms, d + 1, fmt) + (if fmt then Tabs(d) else []) + [0x7D]
  }

  function RenderItems(f: Floats, items: Items, d: nat, fmt: bool): seq<byte> {
    match items
    case NoItems => []
    case Item(v, next) =>
      Render(f, v, d, fmt) + (if next.NoItems? then [] else Comma(fmt)) + RenderItems(f, next, d, fmt)
  }

  function Comma(fmt: bool): seq<byte> { if fmt then [0x2C, 0x20] else [0x2C] }

  function Colon(fmt: bool): seq<byte> { if fmt then [0x3A, 0x09] else [0x3A] }

  function MemberEnd(last: bool, fmt: bool): seq<byte> {
    (if last then [] else [0x2C]) + (if fmt then [0x0A] else [])
  }

  function RenderMembers(f: Floats, ms: Members, d: nat, fmt: bool): seq<byte> {
    match ms
    case NoMembers => []
    case Member(name, v, next) =>
      (if fmt then Tabs(d) else []) + Quoted(name) + Colon(fmt) + Render(f, v, d, fmt)
      + MemberEnd(next.NoMembers?, fmt) + RenderMembers(f, next, d, fmt)
  }

  /** How deeply arrays and objects nest. */
  function Depth(v: Value): nat {
    match v
    case Array(items) => 1 + ItemsDepth(items)
    case Object(ms) => 1 + MembersDepth(ms)
    case _ => 0
  }

  function ItemsDepth(items: Items): nat {
    match items
    case NoItems => 0
    case Item(v, next) => Max(Depth(v), ItemsDepth(next))
  }

  function MembersDepth(ms: Members): nat {
    match ms
    case NoMembers => 0
    case Member(_, v, next) => Max(Depth(v), MembersDepth(next))
  }

  function Max(a: nat, b: nat): nat { if a < b then b else a }

  // ---------- the grammar of the parser, on the text that is left ----------

  /** A parsed value and what is left of the text, or a parse error. */
  datatype Parse<T> = Fail | Ok(value: T, rest: seq<byte>)

  /** buffer_skip_whitespace: at the very end it steps back to the last byte. */
  function Skip(s: seq<byte>): (r: seq<byte>)
    ensures |r| <= |s| && (s != [] ==> r != [])
  {
    if s == [] || s[0] > 32 || |s| == 1 then s else Skip(s[1..])
  }

  /** How far the closing quote is, past escapes. */
  function Close(s: seq<byte>): (r: Option<nat>)
    ensures r.Some? ==> r.value < |s| && s[r.value] == 0x22
  {
    if s == [] then None
    else if s[0] == 0x22 then Some(0)
    else if s[0] == 0x5C then
      if |s| == 1 then None else Further(Close(s[2..]), 2)
    else Further(Close(s[1..]), 1)
  }

  function Further(o: Option<nat>, n: nat): Option<nat> {
    match o case None => None case Some(k) => Some(k + n)
  }

  function HexDigit(c: byte): Option<nat> {
    if 0x30 <= c <= 0x39 then Some(c - 0x30)
    else if 0x41 <= c <= 0x46 then Some(c - 0x41 + 10)
    else if 0x61 <= c <= 0x66 then Some(c - 0x61 + 10)
    else None
  }

  /** parse_hex4: 0 when some digit is bad. */
  function Hex4(s: seq<byte>): (r: nat)
    requires |s| >= 4
    ensures r < 0x10000
  {
    if HexDigit(s[0]).None? || HexDigit(s[1]).None? || HexDigit(s[2]).None? || HexDigit(s[3]).None? then 0
    else ((HexDigit(s[0]).value * 16 + HexDigit(s[1]).value) * 16 + HexDigit(s[2]).value) * 16 + HexDigit(s[3]).value
  }

  /** utf16_literal_to_utf8 on s, of which n bytes come before the closing quote:
      the code point and the length of the literal. */
  function Literal(s: seq<byte>, n: nat): (r: Option<(nat, nat)>)
    requires n <= |s|
    ensures r.Some? ==> r.value.0 <= 0x10FFFF && (r.value.1 == 6 || (r.value.1 == 12 && r.value.0 >= 0x10000)) && r.value.1 <= n
    ensures r.Some? && r.value.1 == 6 ==> r.value.0 < 0x10000
  {
    if n < 6 then None
    else
      var first := Hex4(s[2..6]);
      if 0xDC00 <= first <= 0xDFFF then None
      else if 0xD800 <= first <= 0xDBFF then
        if n < 12 || s[6] != 0x5C || s[7] != 0x75 then None
        else
          var second := Hex4(s[8..12]);
          if second < 0xDC00 || second > 0xDFFF then None
          else Some((0x10000 + (first - 0xD800) * 1024 + (second - 0xDC00), 12))
      else Some((first, 6))
  }

  /** The six bytes of an escape with bad digits: \uZZZZ. */
  const BAD_ESCAPE: seq<byte> := [0x5C, 0x75, 0x5A, 0x5A, 0x5A, 0x5A]

  /** A bad digit is not refused: the escape stands for code point 0. */
  lemma {:induction false} BadDigitsAccepted(rest: seq<byte>)
    ensures Literal(BAD_ESCAPE + rest, 6 + |rest|) == Some((0, 6))
    ensures Unescape(BAD_ESCAPE + [0x22], |BAD_ESCAPE|) == Some([0])
  {
    ZeroEscapeIff(BAD_ESCAPE + rest, 6 + |rest|);
    var s := BAD_ESCAPE + [0x22];
    assert HexDigit((BAD_ESCAPE + rest)[2]).None? && HexDigit(s[2]).None?;
    ZeroEscapeIff(s, 6);
    assert Unescape(s[6..], 0) == Some([]) && Utf8.Encode(0) == [0];
    var n := |BAD_ESCAPE|;
    assert Unescape(s, n) == Before(Utf8.Encode(0), Unescape(s[6..], n - 6));
    assert [0] + [] == [0];
  }

  /** An escape stands for code point 0 exactly when its digits are 0000 or some
      digit is bad. */
  lemma {:induction false} ZeroEscapeIff(s: seq<byte>, n: nat)
    requires 6 <= n <= |s|
    ensures Literal(s, n) == Some((0, 6)) <==>
              s[2..6] == [0x30, 0x30, 0x30, 0x30] || exists i :: 2 <= i < 6 && HexDigit(s[i]).None?
  {
    var d := s[2..6];
    if forall i :: 2 <= i < 6 ==> HexDigit(s[i]).Some? {
      assert forall k :: 0 <= k < 4 ==> d[k] == s[k + 2];
      assert d == [d[0], d[1], d[2], d[3]];
    } else {
      var i :| 2 <= i < 6 && HexDigit(s[i]).None?;
      assert d[i - 2] == s[i];
    }
  }

  /** The byte a two-character escape stands for. */
  function ShortMeaning(c: byte): Option<byte> {
    if c == 0x62 then Some(0x08) else if c == 0x66 then Some(0x0C) else if c == 0x6E then Some(0x0A)
    else if c == 0x72 then Some(0x0D) else if c == 0x74 then Some(0x09)
    else if c == 0x22 || c == 0x5C || c == 0x2F then Some(c)
    else None
  }

  /** The string whose literal has n bytes left before the closing quote. */
  function Unescape(s: seq<byte>, n: int): Option<seq<byte>>
    requires n < |s|
    decreases n
  {
    if n <= 0 then Some([])
    else if s[0] != 0x5C then Before([s[0]], Unescape(s[1..], n - 1))
    else if s[1] == 0x75 then
      match Literal(s, n)
      case None => None
      case Some((c, len)) => Before(Utf8.Encode(c), Unescape(s[len..], n - len))
    else
      match ShortMeaning(s[1])
      case None => None
      case Some(c) => Before([c], Unescape(s[2..], n - 2))
  }

  function Before(a: seq<byte>, o: Option<seq<byte>>): Option<seq<byte>> {
    match o case None => None case Some(b) => Some(a + b)
  }

  function ParseString(s: seq<byte>): (r: Parse<seq<byte>>)
    ensures r.Ok? ==> |r.rest| < |s|
  {
    if s == [] || s[0] != 0x22 then Fail
    else
      match Close(s[1..])
      case None => Fail
      case Some(n) =>
        match Unescape(s[1..], n)
        case None => Fail
        case Some(t) => Ok(t, s[n + 2..])
  }

  /** strtod, which uses at least one byte or fails.  A plain integer is read
      whole, and exactly as long as doubles hold every integer. */
  function Scan(f: Floats, run: seq<byte>): (r: Option<(Double, nat)>)
    ensures r.Some? ==> 1 <= r.value.1 <= |run|
  {
    var n := IntegerOf(run);
    if n.Some? && -EXACT_LIMIT <= n.value <= EXACT_LIMIT then Some((Finite(n.value as real), |run|))
    else
      match f.scan(run)
      case None => None
      case Some((d, used)) => if 1 <= used <= |run| then Some((d, used)) else None
  }

  function ParseNumber(f: Floats, s: seq<byte>): (r: Parse<Value>)
    ensures r.Ok? ==> |r.rest| < |s|
  {
    match Scan(f, s[..NumberRun(s)])
    case None => Fail
    case Some((d, used)) => Ok(Number(d), s[used..])
  }

  /** parse_value at nesting depth d. */
  function ParseValue(f: Floats, s: seq<byte>, d: nat): (r: Parse<Value>)
    ensures r.Ok? ==> |r.rest| < |s|
    decreases |s|, 1
  {
    if NULL_TEXT <= s then Ok(Null, s[4..])
    else if FALSE_TEXT <= s then Ok(False, s[5..])
    else if TRUE_TEXT <= s then Ok(True, s[4..])
    else if s == [] then Fail
    else if s[0] == 0x22 then
      match ParseString(s) case Fail => Fail case Ok(t, rest) => Ok(Text(t), rest)
    else if s[0] == 0x2D || 0x30 <= s[0] <= 0x39 then ParseNumber(f, s)
    else if s[0] == 0x5B then
      if d >= NESTING_LIMIT then Fail
      else
        var t := Skip(s[1..]);
        if t == [] then Fail
        else if t[0] == 0x5D then Ok(Array(NoItems), t[1..])
        else match ParseItems(f, t, d + 1) case Fail => Fail case Ok(items, rest) => Ok(Array(items), rest)
    else if s[0] == 0x7B then
      if d >= NESTING_LIMIT then Fail
      else
        var t := Skip(s[1..]);
        if t == [] then Fail
        else if t[0] == 0x7D then Ok(Object(NoMembers), t[1..])
        else match ParseMembers(f, t, d + 1) case Fail => Fail case Ok(ms, rest) => Ok(Object(ms), rest)
    else Fail
  }

  /** The elements of an array up to its closing bracket. */
  function ParseItems(f: Floats, s: seq<byte>, d: nat): (r: Parse<Items>)
    ensures r.Ok? ==> |r.rest| < |s|
    decreases |s|, 2
  {
    match ParseValue(f, Skip(s), d)
    case Fail => Fail
    case Ok(v, after) =>
      var t := Skip(after);
      if t == [] then Fail
      else if t[0] == 0x2C then
        match ParseItems(f, t[1..], d) case Fail => Fail case Ok(next, rest) => Ok(Item(v, next), rest)
      else if t[0] == 0x5D then Ok(Item(v, NoItems), t[1..])
      else Fail
  }

  /** The members of an object up to its closing brace. */
  function ParseMembers(f: Floats, s: seq<byte>, d: nat): (r: Parse<Members>)
    ensures r.Ok? ==> |r.rest| < |s|
    decreases |s|, 2
  {
    match ParseString(Skip(s))
    case Fail => Fail
    case Ok(name, afterName) =>
      var c := Skip(afterName);
      if c == [] || c[0] != 0x3A then Fail
      else
        match ParseValue(f, Skip(c[1..]), d)
        case Fail => Fail
        case Ok(v, after) =>
          var t := Skip(after);
          if t == [] then Fail
          else if t[0] == 0x2C then
            match ParseMembers(f, t[1..], d) case Fail => Fail case Ok(next, rest) => Ok(Member(name, v, next), rest)
          else if t[0] == 0x7D then Ok(Member(name, v, NoMembers), t[1..])
          else Fail
  }

  /** cJSON_ParseWithLengthOpts on the bytes it is given. */
  function ParseText(f: Floats, s: seq<byte>, requireEnd: bool): Parse<Value> {
    if s == [] then Fail
    else
      match ParseValue(f, Skip(SkipBom(s)), 0)
      case Fail => Fail
      case Ok(v, rest) =>
        if !requireEnd then Ok(v, rest)
        else if Skip(rest) == [] || Skip(rest)[0] != 0 then Fail
        else Ok(v, Skip(rest))
  }

  function SkipBom(s: seq<byte>): seq<byte> {
    if |s| > 4 && s[0] == 0xEF && s[1] == 0xBB && s[2] == 0xBF then s[3..] else s
  }

  /** What parse_value makes of a quote, of the start of a number, of an opening
      bracket, and of an opening brace. */
  lemma {:induction false} StringGrammar(f: Floats, s: seq<byte>, d: nat)
    requires s != [] && s[0] == 0x22
    ensures ParseValue(f, s, d) == match ParseString(s) case Fail => Fail case Ok(t, rest) => Ok(Text(t), rest)
  {
    hide ParseItems, ParseMembers, Skip, ParseString, ParseNumber;
  }

  lemma {:induction false} NumberGrammar(f: Floats, s: seq<byte>, d: nat)
    requires s != [] && (s[0] == 0x2D || 0x30 <= s[0] <= 0x39)
    ensures ParseValue(f, s, d) == ParseNumber(f, s)
  {
    hide ParseItems, ParseMembers, Skip, ParseString, ParseNumber;
  }

  lemma {:induction false} ArrayGrammar(f: Floats, s: seq<byte>, d: nat)
    requires s != [] && s[0] == 0x5B
    ensures ParseValue(f, s, d)
            == if d >= NESTING_LIMIT || Skip(s[1..]) == [] then Fail
               else if Skip(s[1..])[0] == 0x5D then Ok(Array(NoItems), Skip(s[1..])[1..])
               else match ParseItems(f, Skip(s[1..]), d + 1) case Fail => Fail case Ok(items, rest) => Ok(Array(items), rest)
  {
    hide ParseItems, ParseMembers, Skip, ParseString, ParseNumber;
  }

  lemma {:induction false} ObjectGrammar(f: Floats, s: seq<byte>, d: nat)
    requires s != [] && s[0] == 0x7B
    ensures ParseValue(f, s, d)
            == if d >= NESTING_LIMIT || Skip(s[1..]) == [] then Fail
               else if Skip(s[1..])[0] == 0x7D then Ok(Object(NoMembers), Skip(s[1..])[1..])
               else match ParseMembers(f, Skip(s[1..]), d + 1) case Fail => Fail case Ok(ms, rest) => Ok(Object(ms), rest)
  {
    hide ParseItems, ParseMembers, Skip, ParseString, ParseNumber;
  }
}
