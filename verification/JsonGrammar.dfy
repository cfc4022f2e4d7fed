/**
 The grammar of section 2 of RFC 8259 as documents and their texts, and that the
 parser accepts exactly these texts, each with the value of its document.
 */
module JsonGrammar {
  import opened Bytes
  import opened Json
  import opened JsonRoundTrip
  import JsonLiterals

  /** A text by its structure: tokens, and the blanks between them.  A string is given by
      what stands between its quotes. */
  datatype Doc =
    | Word(value: Value)
    | Num(text: seq<byte>)
    | Str(raw: seq<byte>)
    | Arr(blank: seq<byte>, elems: Elems)
    | Obj(blank: seq<byte>, pairs: Pairs)

  datatype Elems = NoElems | Elem(before: seq<byte>, doc: Doc, after: seq<byte>, next: Elems)

  datatype Pairs = NoPairs | Pair(before: seq<byte>, name: seq<byte>, colon: seq<byte>, gap: seq<byte>, doc: Doc,
                                  after: seq<byte>, next: Pairs)

  // ---------- the text of a document ----------

  function TextOf(doc: Doc): seq<byte> {
    match doc
    case Word(v) => if v == Null then [0x6E, 0x75, 0x6C, 0x6C] else if v == True then [0x74, 0x72, 0x75, 0x65]
                    else [0x66, 0x61, 0x6C, 0x73, 0x65]
    case Num(text) => text
    case Str(raw) => [0x22] + raw + [0x22]
    case Arr(blank, elems) => [0x5B] + (if elems.NoElems? then blank + [0x5D] else ElemsText(elems))
    case Obj(blank, pairs) => [0x7B] + (if pairs.NoPairs? then blank + [0x7D] else PairsText(pairs))
  }

  /** The elements, with a comma between them, and the closing bracket. */
  function ElemsText(elems: Elems): seq<byte> {
    match elems
    case NoElems => []
    case Elem(before, doc, after, next) =>
      before + (TextOf(doc) + (after + (if next.NoElems? then [0x5D] else [0x2C] + ElemsText(next))))
  }

  /** The members, with a comma between them, and the closing brace. */
  function PairsText(pairs: Pairs): seq<byte> {
    match pairs
    case NoPairs => []
    case Pair(before, name, colon, gap, doc, after, next) =>
      before + ([0x22] + name + [0x22] + (colon + ([0x3A] + (gap + (TextOf(doc) + (after
      + (if next.NoPairs? then [0x7D] else [0x2C] + PairsText(next))))))))
  }

  // ---------- documents that are well formed, and their values ----------

  function StringOf(raw: seq<byte>): Option<seq<byte>> {
    match ParseString([0x22] + raw + [0x22])
    case Fail => None
    case Ok(t, rest) => if rest == [] then Some(t) else None
  }

  /** strtod takes the whole of the text. */
  predicate NumberOk(f: Floats, text: seq<byte>) {
    && text != [] && (text[0] == 0x2D || 0x30 <= text[0] <= 0x39)
    && (forall i :: 0 <= i < |text| ==> IsNumberByte(text[i]))
    && Scan(f, text).Some? && Scan(f, text).value.1 == |text|
  }

  predicate DocOk(f: Floats, doc: Doc) {
    match doc
    case Word(v) => v == Null || v == True || v == False
    case Num(text) => NumberOk(f, text)
    case Str(raw) => StringOf(raw).Some?
    case Arr(blank, elems) => Blank(blank) && ElemsOk(f, elems)
    case Obj(blank, pairs) => Blank(blank) && PairsOk(f, pairs)
  }

  predicate ElemsOk(f: Floats, elems: Elems) {
    elems.Elem? ==> Blank(elems.before) && DocOk(f, elems.doc) && Blank(elems.after) && ElemsOk(f, elems.next)
  }

  predicate PairsOk(f: Floats, pairs: Pairs) {
    pairs.Pair? ==>
      && Blank(pairs.before) && StringOf(pairs.name).Some? && Blank(pairs.colon) && Blank(pairs.gap)
      && DocOk(f, pairs.doc) && Blank(pairs.after) && PairsOk(f, pairs.next)
  }

  function ValueOf(f: Floats, doc: Doc): Value
    requires DocOk(f, doc)
  {
    match doc
    case Word(v) => v
    case Num(text) => Number(Scan(f, text).value.0)
    case Str(raw) => Text(StringOf(raw).value)
    case Arr(_, elems) => Array(ItemsOf(f, elems))
    case Obj(_, pairs) => Object(MembersOf(f, pairs))
  }

  function ItemsOf(f: Floats, elems: Elems): Items
    requires ElemsOk(f, elems)
  {
    match elems case NoElems => NoItems case Elem(_, doc, _, next) => Item(ValueOf(f, doc), ItemsOf(f, next))
  }

  function MembersOf(f: Floats, pairs: Pairs): Members
    requires PairsOk(f, pairs)
  {
    match pairs
    case NoPairs => NoMembers
    case Pair(_, name, _, _, doc, _, next) => Member(StringOf(name).value, ValueOf(f, doc), MembersOf(f, next))
  }

  /** How deeply arrays and objects nest. */
  function Levels(doc: Doc): nat {
    match doc
    case Arr(_, elems) => 1 + ElemsLevels(elems)
    case Obj(_, pairs) => 1 + PairsLevels(pairs)
    case _ => 0
  }

  function ElemsLevels(elems: Elems): nat {
    match elems case NoElems => 0 case Elem(_, doc, _, next) => Max(Levels(doc), ElemsLevels(next))
  }

  function PairsLevels(pairs: Pairs): nat {
    match pairs case NoPairs => 0 case Pair(_, _, _, _, doc, _, next) => Max(Levels(doc), PairsLevels(next))
  }

  // ---------- strings in context ----------

  /** Where a literal ends depends on nothing behind its end. */
  lemma {:induction false} ClosePrefix(s: seq<byte>, t: seq<byte>, n: nat)
    requires Close(s) == Some(n) && n < |t| && s[..n + 1] == t[..n + 1]
    ensures Close(t) == Some(n)
    decreases n
  {
    assert s[0] == s[..n + 1][0] == t[0];
    if s[0] == 0x22 {
    } else {
      var k := if s[0] == 0x5C then 2 else 1;
      assert k <= n;
      assert s[k..][..n - k + 1] == s[..n + 1][k..] == t[..n + 1][k..] == t[k..][..n - k + 1];
      ClosePrefix(s[k..], t[k..], n - k);
    }
  }

  lemma {:induction false} LiteralPrefix(s: seq<byte>, t: seq<byte>, n: nat)
    requires n < |s| && n < |t| && s[..n + 1] == t[..n + 1]
    ensures Literal(s, n) == Literal(t, n)
  {
    hide Hex4;
    if n >= 6 { assert s[2..6] == s[..n + 1][2..6] == t[..n + 1][2..6] == t[2..6]; }
    if n >= 12 {
      assert s[8..12] == s[..n + 1][8..12] == t[..n + 1][8..12] == t[8..12];
      assert s[6] == s[..n + 1][6] == t[6] && s[7] == s[..n + 1][7] == t[7];
    }
  }

  lemma {:induction false} UnescapePrefix(s: seq<byte>, t: seq<byte>, n: int)
    requires n < |s| && n < |t| && (n >= 0 ==> s[..n + 1] == t[..n + 1])
    ensures Unescape(s, n) == Unescape(t, n)
    decreases n
  {
    hide Literal, ShortMeaning;
    if n > 0 {
      assert s[0] == s[..n + 1][0] == t[0] && s[1] == s[..n + 1][1] == t[1];
      LiteralPrefix(s, t, n);
      if s[0] != 0x5C {
        Shorter(s, t, n, 1);
        UnescapePrefix(s[1..], t[1..], n - 1);
      } else if s[1] == 0x75 {
        if Literal(s, n).Some? {
          var len := Literal(s, n).value.1;
          LiteralLength(s, n);
          Shorter(s, t, n, len);
          UnescapePrefix(s[len..], t[len..], n - len);
        }
      } else if ShortMeaning(s[1]).Some? {
        Shorter(s, t, n, 2);
        UnescapePrefix(s[2..], t[2..], n - 2);
      }
    }
  }

  lemma {:induction false} LiteralLength(s: seq<byte>, n: nat)
    requires n < |s| && Literal(s, n).Some?
    ensures 6 <= Literal(s, n).value.1 <= n
  {
  }

  lemma {:induction false} Shorter(s: seq<byte>, t: seq<byte>, n: nat, k: nat)
    requires n < |s| && n < |t| && s[..n + 1] == t[..n + 1] && k <= n + 1
    ensures n - k >= 0 ==> s[k..][..n - k + 1] == t[k..][..n - k + 1]
  {
    if n - k >= 0 { assert s[k..][..n - k + 1] == s[..n + 1][k..] && t[k..][..n - k + 1] == t[..n + 1][k..]; }
  }

  /** A string is read as it is, whatever follows it. */
  lemma {:induction false} StringRead(raw: seq<byte>, post: seq<byte>)
    requires StringOf(raw).Some?
    ensures ParseString([0x22] + raw + [0x22] + post) == Ok(StringOf(raw).value, post)
  {
    hide Close, Unescape;
    var a, b := [0x22] + raw + [0x22], [0x22] + raw + [0x22] + post;
    var n := Close(a[1..]).value;
    assert a[n + 2..] == [] && n == |raw|;
    assert a[1..][..n + 1] == b[1..][..n + 1];
    ClosePrefix(a[1..], b[1..], n);
    UnescapePrefix(a[1..], b[1..], n);
    assert b[n + 2..] == post;
  }

  /** What parse_string accepts starts with a string. */
  lemma {:induction false} StringFound(s: seq<byte>) returns (raw: seq<byte>)
    requires ParseString(s).Ok?
    ensures StringOf(raw) == Some(ParseString(s).value) && s == [0x22] + raw + [0x22] + ParseString(s).rest
  {
    hide Close, Unescape;
    var n := Close(s[1..]).value;
    raw := s[1..n + 1];
    var a := [0x22] + raw + [0x22];
    assert a == s[..n + 2];
    assert s[1..][..n + 1] == a[1..][..n + 1];
    ClosePrefix(s[1..], a[1..], n);
    UnescapePrefix(s[1..], a[1..], n);
    assert a[n + 2..] == [];
    assert s == s[..n + 2] + s[n + 2..];
  }

  // ---------- every document is read ----------

  predicate Fits(d: nat, levels: nat) { levels == 0 || d + levels <= 1000 }

  lemma {:induction false} FirstOf(f: Floats, doc: Doc)
    requires DocOk(f, doc)
    ensures TextOf(doc) != [] && TextOf(doc)[0] > 32
  {
    hide Scan, ParseString;
  }

  /** Blanks and what is behind them do not belong to a number. */
  lemma {:induction false} BlankStops(w: seq<byte>, c: byte, post: seq<byte>)
    requires Blank(w) && c in {0x2C, 0x5D, 0x7D, 0x3A}
    ensures Stops(w + ([c] + post)) && Skip(w + ([c] + post)) == [c] + post
  {
    SkipBlank(w, [c] + post);
  }

  lemma {:induction false} NumberRead(f: Floats, text: seq<byte>, post: seq<byte>, d: nat)
    requires NumberOk(f, text) && Stops(post)
    ensures ParseValue(f, text + post, d) == Ok(Number(Scan(f, text).value.0), post)
  {
    hide Scan, ParseValue, NumberRun;
    NumberGrammar(f, text + post, d);
    RunOf(text, post);
    assert (text + post)[..|text|] == text && (text + post)[|text|..] == post;
  }

  lemma {:induction false} WordRead(f: Floats, v: Value, post: seq<byte>, d: nat)
    requires v == Null || v == True || v == False
    ensures ParseValue(f, TextOf(Word(v)) + post, d) == Ok(v, post)
  {
    hide ParseValue;
    JsonLiterals.Words(f, post, d);
  }

  /** parse_value reads the text of every document whose nesting is within the limit. */
  lemma {:induction false} DocRead(f: Floats, doc: Doc, d: nat, post: seq<byte>)
    requires DocOk(f, doc) && Stops(post) && Fits(d, Levels(doc))
    ensures ParseValue(f, TextOf(doc) + post, d) == Ok(ValueOf(f, doc), post)
    decreases doc, 0
  {
    hide ParseValue, ParseItems, ParseMembers, ParseString, Skip, ElemsText, PairsText, NumberOk, Scan, StringOf, Blank;
    match doc
    case Word(v) => WordRead(f, v, post, d);
    case Num(text) => NumberRead(f, text, post, d);
    case Str(raw) =>
      StringRead(raw, post);
      StringGrammar(f, TextOf(doc) + post, d);
    case Arr(blank, elems) => ArrRead(f, blank, elems, d, post);
    case Obj(blank, pairs) => ObjRead(f, blank, pairs, d, post);
  }

  lemma {:induction false} ArrRead(f: Floats, blank: seq<byte>, elems: Elems, d: nat, post: seq<byte>)
    requires Blank(blank) && ElemsOk(f, elems) && d + 1 + ElemsLevels(elems) <= 1000
    ensures ParseValue(f, TextOf(Arr(blank, elems)) + post, d) == Ok(Array(ItemsOf(f, elems)), post)
    decreases elems, 2
  {
    hide ParseValue, ParseItems, Skip, ElemsText, DocOk, ElemsOk, Blank;
    var s := TextOf(Arr(blank, elems)) + post;
    ArrayGrammar(f, s, d);
    if elems.NoElems? {
      BlankStops(blank, 0x5D, post);
      assert s[1..] == blank + ([0x5D] + post) && ([0x5D] + post)[1..] == post;
      assert ItemsOf(f, elems) == NoItems;
    } else {
      assert s[1..] == ElemsText(elems) + post;
      ElemsFirst(f, elems, post);
      ElemsRead(f, elems, d + 1, post);
      SkipTwice(f, s[1..], d + 1);
    }
  }

  /** The blanks in front of an element are skipped once more by ParseItems. */
  lemma {:induction false} SkipTwice(f: Floats, s: seq<byte>, d: nat)
    requires s != [] && Skip(s)[0] > 32
    ensures ParseItems(f, Skip(s), d) == ParseItems(f, s, d) && ParseMembers(f, Skip(s), d) == ParseMembers(f, s, d)
  {
    hide ParseValue, ParseString;
    assert [] + Skip(s) == Skip(s);
    SkipBlank([], Skip(s));
  }

  lemma {:induction false} ElemsFirst(f: Floats, elems: Elems, post: seq<byte>)
    requires ElemsOk(f, elems) && elems.Elem?
    ensures var s := ElemsText(elems) + post; s != [] && Skip(s) != [] && Skip(s)[0] > 32 && Skip(s)[0] != 0x5D
  {
    hide Skip, DocOk, TextOf;
    var Elem(before, doc, after, next) := elems;
    FirstOf(f, doc);
    NotABracket(f, doc);
    var more := after + (if next.NoElems? then [0x5D] else [0x2C] + ElemsText(next));
    var rest := TextOf(doc) + (more + post);
    SkipBlank(before, rest);
    assert ElemsText(elems) + post == before + rest;
  }

  lemma {:induction false} NotABracket(f: Floats, doc: Doc)
    requires DocOk(f, doc)
    ensures TextOf(doc) != [] && TextOf(doc)[0] != 0x5D
  {
    hide Scan, ParseString;
  }

  lemma {:induction false} ElemsRead(f: Floats, elems: Elems, d: nat, post: seq<byte>)
    requires ElemsOk(f, elems) && elems.Elem? && d + ElemsLevels(elems) <= 1000
    ensures ParseItems(f, ElemsText(elems) + post, d) == Ok(ItemsOf(f, elems), post)
    decreases elems, 1
  {
    hide ParseValue, Skip, DocOk, TextOf, Blank, ElemsText;
    var Elem(before, doc, after, next) := elems;
    var c: byte := if next.NoElems? then 0x5D else 0x2C;
    var tail := (if next.NoElems? then [] else ElemsText(next)) + post;
    FirstOf(f, doc);
    ElemsSplit(elems, post);
    BlankStops(after, c, tail);
    SkipBlankBefore(before, TextOf(doc) + (after + ([c] + tail)));
    DocRead(f, doc, d, after + ([c] + tail));
    assert ([c] + tail)[1..] == tail;
    if next.Elem? {
      ElemsRead(f, next, d, post);
    } else {
      assert tail == post;
    }
  }

  lemma {:induction false} SkipBlankBefore(w: seq<byte>, s: seq<byte>)
    requires Blank(w) && s != [] && s[0] > 32
    ensures Skip(w + s) == s
  {
    SkipBlank(w, s);
  }

  lemma {:induction false} ElemsSplit(elems: Elems, post: seq<byte>)
    requires elems.Elem?
    ensures var c: byte := if elems.next.NoElems? then 0x5D else 0x2C;
            var tail := (if elems.next.NoElems? then [] else ElemsText(elems.next)) + post;
            ElemsText(elems) + post == elems.before + (TextOf(elems.doc) + (elems.after + ([c] + tail)))
  {
    hide TextOf;
  }

  lemma {:induction false} ObjRead(f: Floats, blank: seq<byte>, pairs: Pairs, d: nat, post: seq<byte>)
    requires Blank(blank) && PairsOk(f, pairs) && d + 1 + PairsLevels(pairs) <= 1000
    ensures ParseValue(f, TextOf(Obj(blank, pairs)) + post, d) == Ok(Object(MembersOf(f, pairs)), post)
    decreases pairs, 2
  {
    hide ParseValue, ParseMembers, Skip, PairsText, DocOk, PairsOk, Blank;
    var s := TextOf(Obj(blank, pairs)) + post;
    ObjectGrammar(f, s, d);
    if pairs.NoPairs? {
      BlankStops(blank, 0x7D, post);
      assert s[1..] == blank + ([0x7D] + post) && ([0x7D] + post)[1..] == post;
      assert MembersOf(f, pairs) == NoMembers;
    } else {
      assert s[1..] == PairsText(pairs) + post;
      PairsFirst(f, pairs, post);
      PairsRead(f, pairs, d + 1, post);
      SkipTwice(f, s[1..], d + 1);
    }
  }

  /** What follows the name of a member, up to what follows its value. */
  function AfterName(pairs: Pairs, post: seq<byte>): seq<byte>
    requires pairs.Pair?
  {
    var c: byte := if pairs.next.NoPairs? then 0x7D else 0x2C;
    pairs.after + ([c] + ((if pairs.next.NoPairs? then [] else PairsText(pairs.next)) + post))
  }

  lemma {:induction false} PairsSplit(pairs: Pairs, post: seq<byte>)
    requires pairs.Pair?
    ensures PairsText(pairs) + post
            == pairs.before + ([0x22] + pairs.name + [0x22]
               + (pairs.colon + ([0x3A] + (pairs.gap + (TextOf(pairs.doc) + AfterName(pairs, post))))))
  {
    hide TextOf;
    var c := if pairs.next.NoPairs? then [0x7D] else [0x2C] + PairsText(pairs.next);
    assert pairs.after + c + post == AfterName(pairs, post);
    var t := TextOf(pairs.doc);
    Regroup(pairs.gap, t, pairs.after + c, post);
    Regroup(pairs.colon, [0x3A], pairs.gap + (t + (pairs.after + c)), post);
    Regroup(pairs.before, [0x22] + pairs.name + [0x22],
            pairs.colon + ([0x3A] + (pairs.gap + (t + (pairs.after + c)))), post);
  }

  lemma {:induction false} Regroup(a: seq<byte>, b: seq<byte>, c: seq<byte>, post: seq<byte>)
    ensures a + (b + c) + post == a + (b + (c + post))
  {
  }

  lemma {:induction false} PairsFirst(f: Floats, pairs: Pairs, post: seq<byte>)
    requires PairsOk(f, pairs) && pairs.Pair?
    ensures var s := PairsText(pairs) + post; s != [] && Skip(s) != [] && Skip(s)[0] == 0x22
  {
    hide Skip, DocOk, TextOf, PairsText, AfterName;
    PairsSplit(pairs, post);
    var rest := [0x22] + pairs.name + [0x22]
                + (pairs.colon + ([0x3A] + (pairs.gap + (TextOf(pairs.doc) + AfterName(pairs, post)))));
    SkipBlank(pairs.before, rest);
  }

  lemma {:induction false} PairsRead(f: Floats, pairs: Pairs, d: nat, post: seq<byte>)
    requires PairsOk(f, pairs) && pairs.Pair? && d + PairsLevels(pairs) <= 1000
    ensures ParseMembers(f, PairsText(pairs) + post, d) == Ok(MembersOf(f, pairs), post)
    decreases pairs, 1
  {
    hide ParseValue, ParseString, Skip, DocOk, TextOf, Blank, PairsText, StringOf;
    var Pair(before, name, colon, gap, doc, after, next) := pairs;
    var c: byte := if next.NoPairs? then 0x7D else 0x2C;
    var tail := (if next.NoPairs? then [] else PairsText(next)) + post;
    var value := TextOf(doc) + AfterName(pairs, post);
    FirstOf(f, doc);
    PairsSplit(pairs, post);
    BlankStops(after, c, tail);
    BlankStops(colon, 0x3A, gap + value);
    SkipBlankBefore(before, [0x22] + name + [0x22] + (colon + ([0x3A] + (gap + value))));
    SkipBlankBefore(gap, value);
    StringRead(name, colon + ([0x3A] + (gap + value)));
    DocRead(f, doc, d, after + ([c] + tail));
    assert ([0x3A] + (gap + value))[1..] == gap + value;
    assert ([c] + tail)[1..] == tail;
    if next.Pair? {
      PairsRead(f, next, d, post);
    } else {
      assert tail == post;
    }
  }

  // ---------- everything that is read is a document ----------

  /** What Skip has skipped, in front of something that is not blank. */
  lemma {:induction false} Skipped(s: seq<byte>) returns (w: seq<byte>)
    requires Skip(s) != [] && Skip(s)[0] > 32
    ensures Blank(w) && s == w + Skip(s)
    decreases |s|
  {
    if s[0] > 32 {
      w := [];
      assert s == [] + s;
    } else {
      var v := Skipped(s[1..]);
      w := [s[0]] + v;
      assert s == [s[0]] + s[1..] == [s[0]] + (v + Skip(s)) == w + Skip(s);
    }
  }

  lemma {:induction false} SkipAgain(s: seq<byte>)
    ensures Skip(Skip(s)) == Skip(s)
    decreases |s|
  {
    if s != [] && s[0] <= 32 && |s| != 1 { SkipAgain(s[1..]); }
  }

  lemma {:induction false} FirstRead(f: Floats, s: seq<byte>, d: nat)
    requires ParseValue(f, s, d).Ok?
    ensures s != [] && s[0] > 32
  {
    hide ParseString, ParseNumber, ParseItems, ParseMembers, Skip;
    if NULL_TEXT <= s { assert s[0] == 0x6E; }
    if FALSE_TEXT <= s { assert s[0] == 0x66; }
    if TRUE_TEXT <= s { assert s[0] == 0x74; }
  }

  /** doc is what the parser has read from s, up to rest. */
  ghost predicate Reads(f: Floats, doc: Doc, d: nat, s: seq<byte>, v: Value, rest: seq<byte>) {
    DocOk(f, doc) && s == TextOf(doc) + rest && ValueOf(f, doc) == v && Fits(d, Levels(doc))
  }

  lemma {:induction false} WordFound(f: Floats, s: seq<byte>, d: nat) returns (doc: Doc)
    requires NULL_TEXT <= s || FALSE_TEXT <= s || TRUE_TEXT <= s
    ensures ParseValue(f, s, d).Ok? && Reads(f, doc, d, s, ParseValue(f, s, d).value, ParseValue(f, s, d).rest)
  {
    hide ParseString, ParseNumber, ParseItems, ParseMembers, Skip, Scan;
    if NULL_TEXT <= s {
      doc := Word(Null);
      assert s == s[..4] + s[4..];
    } else if FALSE_TEXT <= s {
      doc := Word(False);
      assert s == s[..5] + s[5..];
    } else {
      doc := Word(True);
      assert s == s[..4] + s[4..];
    }
  }

  lemma {:induction false} NumberFound(f: Floats, s: seq<byte>, d: nat) returns (doc: Doc)
    requires s != [] && (s[0] == 0x2D || 0x30 <= s[0] <= 0x39) && ParseNumber(f, s).Ok? && Stops(ParseNumber(f, s).rest)
    ensures Reads(f, doc, d, s, ParseNumber(f, s).value, ParseNumber(f, s).rest)
  {
    hide Scan, ParseValue;
    var run := s[..NumberRun(s)];
    RunIs(s);
    var used := Scan(f, run).value.1;
    var k := if used < |s| then used else |s| - 1;
    assert s[k..][0] == s[k];
    assert run[..|run|] == run;
    doc := Num(run);
    assert s == run + s[|run|..];
  }

  lemma {:induction false} RunIs(s: seq<byte>)
    ensures forall i :: 0 <= i < NumberRun(s) ==> IsNumberByte(s[i])
    ensures s != [] && IsNumberByte(s[0]) ==> NumberRun(s) >= 1
  {
    if s != [] && IsNumberByte(s[0]) {
      RunIs(s[1..]);
      forall i | 0 <= i < NumberRun(s) ensures IsNumberByte(s[i]) { if i > 0 { assert s[i] == s[1..][i - 1]; } }
    }
  }

  /** What parse_value accepts starts with the text of a document, of the value it gives;
      what is left must not start with a byte that a number could have taken. */
  lemma {:induction false} DocFound(f: Floats, s: seq<byte>, d: nat) returns (doc: Doc)
    requires ParseValue(f, s, d).Ok? && Stops(ParseValue(f, s, d).rest)
    ensures Reads(f, doc, d, s, ParseValue(f, s, d).value, ParseValue(f, s, d).rest)
    decreases |s|, 1
  {
    hide ParseValue, ParseItems, ParseMembers, ParseString, ParseNumber, Skip, Reads, StringOf;
    if NULL_TEXT <= s || FALSE_TEXT <= s || TRUE_TEXT <= s {
      doc := WordFound(f, s, d);
    } else {
      NoWord(f, s, d);
      if s[0] == 0x22 {
        StringGrammar(f, s, d);
        var raw := StringFound(s);
        doc := Str(raw);
        StrReads(f, raw, d, s);
      } else if s[0] == 0x2D || 0x30 <= s[0] <= 0x39 {
        NumberGrammar(f, s, d);
        doc := NumberFound(f, s, d);
      } else if s[0] == 0x5B {
        doc := ArrFound(f, s, d);
      } else {
        doc := ObjFound(f, s, d);
      }
    }
  }

  lemma {:induction false} NoWord(f: Floats, s: seq<byte>, d: nat)
    requires !(NULL_TEXT <= s) && !(FALSE_TEXT <= s) && !(TRUE_TEXT <= s) && ParseValue(f, s, d).Ok?
    ensures s != [] && (s[0] == 0x22 || s[0] == 0x2D || 0x30 <= s[0] <= 0x39 || s[0] == 0x5B || s[0] == 0x7B)
  {
    hide ParseItems, ParseMembers, ParseString, ParseNumber, Skip;
  }

  lemma {:induction false} StrReads(f: Floats, raw: seq<byte>, d: nat, s: seq<byte>)
    requires ParseString(s).Ok? && StringOf(raw) == Some(ParseString(s).value)
    requires s == [0x22] + raw + [0x22] + ParseString(s).rest
    ensures Reads(f, Str(raw), d, s, Text(ParseString(s).value), ParseString(s).rest)
  {
    hide ParseString, StringOf;
  }

  lemma {:induction false} ArrFound(f: Floats, s: seq<byte>, d: nat) returns (doc: Doc)
    requires s != [] && s[0] == 0x5B && ParseValue(f, s, d).Ok?
    ensures Reads(f, doc, d, s, ParseValue(f, s, d).value, ParseValue(f, s, d).rest)
    decreases |s|, 0
  {
    hide ParseValue, ParseItems, Skip, Blank, ElemsOk, ElemsText, ItemsOf, ElemsLevels;
    var t := Skip(s[1..]);
    ArrayGrammar(f, s, d);
    assert s == [0x5B] + s[1..];
    if t[0] == 0x5D {
      var w := Skipped(s[1..]);
      doc := Arr(w, NoElems);
      assert t == [0x5D] + t[1..];
      EmptyArray(f, w, d, s, t[1..]);
    } else {
      SkipAgain(s[1..]);
      ItemsNotBlank(f, t, d + 1);
      SkipTwice(f, s[1..], d + 1);
      var elems := ElemsFound(f, s[1..], d + 1);
      doc := Arr([], elems);
      assert s == [0x5B] + ElemsText(elems) + ParseValue(f, s, d).rest;
      NoBlank();
    }
  }

  lemma {:induction false} NoBlank()
    ensures Blank([])
  {
  }

  lemma {:induction false} EmptyArray(f: Floats, w: seq<byte>, d: nat, s: seq<byte>, rest: seq<byte>)
    requires Blank(w) && s == [0x5B] + (w + ([0x5D] + rest)) && d < 1000
    ensures Reads(f, Arr(w, NoElems), d, s, Array(NoItems), rest)
  {
    assert [0x5B] + (w + [0x5D]) + rest == [0x5B] + (w + ([0x5D] + rest));
  }

  lemma {:induction false} ItemsNotBlank(f: Floats, t: seq<byte>, d: nat)
    requires t != [] && ParseItems(f, t, d).Ok? && Skip(t) == t
    ensures t[0] > 32
  {
    hide ParseValue, Skip;
    FirstRead(f, Skip(t), d);
  }

  lemma {:induction false} ElemsFound(f: Floats, s: seq<byte>, d: nat) returns (elems: Elems)
    requires ParseItems(f, s, d).Ok? && d <= 1000
    ensures elems.Elem? && ElemsOk(f, elems) && s == ElemsText(elems) + ParseItems(f, s, d).rest
    ensures ItemsOf(f, elems) == ParseItems(f, s, d).value && d + ElemsLevels(elems) <= 1000
    decreases |s|, 2
  {
    hide ParseValue, Skip, DocOk, TextOf, ValueOf, Levels, Blank, ElemsText;
    var u := Skip(s);
    var after := ParseValue(f, u, d).rest;
    var t := Skip(after);
    FirstRead(f, u, d);
    var before := Skipped(s);
    var gap := Skipped(after);
    assert t == [t[0]] + t[1..];
    BlankStops(gap, t[0], t[1..]);
    var doc := DocFound(f, u, d);
    var next := NoElems;
    if t[0] == 0x2C { next := ElemsFound(f, t[1..], d); }
    elems := Elem(before, doc, gap, next);
    var rest := ParseItems(f, s, d).rest;
    ElemsSplit(elems, rest);
    assert next.NoElems? ==> [] + rest == rest;
  }

  lemma {:induction false} ObjFound(f: Floats, s: seq<byte>, d: nat) returns (doc: Doc)
    requires s != [] && s[0] == 0x7B && ParseValue(f, s, d).Ok?
    ensures Reads(f, doc, d, s, ParseValue(f, s, d).value, ParseValue(f, s, d).rest)
    decreases |s|, 0
  {
    hide ParseValue, ParseMembers, Skip, Blank, PairsOk, PairsText, MembersOf, PairsLevels;
    var t := Skip(s[1..]);
    ObjectGrammar(f, s, d);
    assert s == [0x7B] + s[1..];
    if t[0] == 0x7D {
      var w := Skipped(s[1..]);
      doc := Obj(w, NoPairs);
      assert t == [0x7D] + t[1..];
      EmptyObject(f, w, d, s, t[1..]);
    } else {
      SkipAgain(s[1..]);
      MembersNotBlank(f, t, d + 1);
      SkipTwice(f, s[1..], d + 1);
      var pairs := PairsFound(f, s[1..], d + 1);
      doc := Obj([], pairs);
      assert s == [0x7B] + PairsText(pairs) + ParseValue(f, s, d).rest;
      NoBlank();
    }
  }

  lemma {:induction false} EmptyObject(f: Floats, w: seq<byte>, d: nat, s: seq<byte>, rest: seq<byte>)
    requires Blank(w) && s == [0x7B] + (w + ([0x7D] + rest)) && d < 1000
    ensures Reads(f, Obj(w, NoPairs), d, s, Object(NoMembers), rest)
  {
    assert [0x7B] + (w + [0x7D]) + rest == [0x7B] + (w + ([0x7D] + rest));
  }

  lemma {:induction false} MembersNotBlank(f: Floats, t: seq<byte>, d: nat)
    requires t != [] && ParseMembers(f, t, d).Ok? && Skip(t) == t
    ensures t[0] > 32
  {
    hide ParseValue, Skip;
  }

  lemma {:induction false} PairsFound(f: Floats, s: seq<byte>, d: nat) returns (pairs: Pairs)
    requires ParseMembers(f, s, d).Ok? && d <= 1000
    ensures pairs.Pair? && PairsOk(f, pairs) && s == PairsText(pairs) + ParseMembers(f, s, d).rest
    ensures MembersOf(f, pairs) == ParseMembers(f, s, d).value && d + PairsLevels(pairs) <= 1000
    decreases |s|, 2
  {
    hide ParseValue, ParseString, Skip, DocOk, TextOf, ValueOf, Levels, Blank, PairsText, StringOf;
    var n := Skip(s);
    var afterName := ParseString(n).rest;
    var c := Skip(afterName);
    var u := Skip(c[1..]);
    var after := ParseValue(f, u, d).rest;
    var t := Skip(after);
    FirstRead(f, u, d);
    QuoteStarts(n);
    var before := Skipped(s);
    var colon := Skipped(afterName);
    var inner := Skipped(c[1..]);
    var gap := Skipped(after);
    assert t == [t[0]] + t[1..] && c == [0x3A] + c[1..];
    BlankStops(gap, t[0], t[1..]);
    var name := StringFound(n);
    var doc := DocFound(f, u, d);
    var next := NoPairs;
    if t[0] == 0x2C { next := PairsFound(f, t[1..], d); }
    pairs := Pair(before, name, colon, inner, doc, gap, next);
    PairJoined(pairs, s, n, afterName, c, u, after, t, ParseMembers(f, s, d).rest);
  }

  lemma {:induction false} QuoteStarts(s: seq<byte>)
    requires ParseString(s).Ok?
    ensures s != [] && s[0] == 0x22
  {
  }

  /** The pieces of a member put together. */
  lemma {:induction false} PairJoined(pairs: Pairs, s: seq<byte>, n: seq<byte>, afterName: seq<byte>, c: seq<byte>,
                                      u: seq<byte>, after: seq<byte>, t: seq<byte>, rest: seq<byte>)
    requires pairs.Pair? && s == pairs.before + n && n == [0x22] + pairs.name + [0x22] + afterName
    requires afterName == pairs.colon + c && c == [0x3A] + (pairs.gap + u) && u == TextOf(pairs.doc) + after
    requires after == pairs.after + t
    requires t == if pairs.next.NoPairs? then [0x7D] + rest else [0x2C] + (PairsText(pairs.next) + rest)
    ensures s == PairsText(pairs) + rest
  {
    hide TextOf, PairsText;
    PairsSplit(pairs, rest);
    assert pairs.next.NoPairs? ==> [] + rest == rest;
  }

  /** parse_value accepts exactly the texts of the grammar: what it has read is the text of
      a document within the nesting limit, and the value is the document's; and each
      such text is read so. */
  lemma {:induction false} GrammarIff(f: Floats, s: seq<byte>, d: nat, v: Value, rest: seq<byte>)
    requires Stops(rest)
    ensures ParseValue(f, s, d) == Ok(v, rest) <==> exists doc :: Reads(f, doc, d, s, v, rest)
  {
    hide ParseValue, Reads;
    if ParseValue(f, s, d) == Ok(v, rest) {
      var doc := DocFound(f, s, d);
      assert Reads(f, doc, d, s, v, rest);
    }
    if doc :| Reads(f, doc, d, s, v, rest) { ReadBack(f, doc, d, s, v, rest); }
  }

  lemma {:induction false} ReadBack(f: Floats, doc: Doc, d: nat, s: seq<byte>, v: Value, rest: seq<byte>)
    requires Reads(f, doc, d, s, v, rest) && Stops(rest)
    ensures ParseValue(f, s, d) == Ok(v, rest)
  {
    hide ParseValue, DocOk, TextOf, ValueOf, Levels;
    DocRead(f, doc, d, rest);
  }
}
