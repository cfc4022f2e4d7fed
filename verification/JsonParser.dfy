/**
 The parser of cJSON.c: a buffer with a moving offset and a nesting depth, and
 the parse functions, proved against the grammar of module Json.  Strings are
 decoded into an array of the size the first pass over them estimates.
 */
module JsonParser {
  import opened Bytes
  import opened Json
  import Utf8

  // ---------- the size estimate of parse_string ----------

  /** Byte i starts an escape, as the first pass over the literal sees it. */
  predicate IsStart(s: seq<byte>, i: nat)
    requires i < |s|
  {
    s[i] == 0x5C && !(i > 0 && IsStart(s, i - 1))
  }

  /** skipped_bytes: the escapes that start before byte i. */
  function Skipped(s: seq<byte>, i: nat): (n: nat)
    requires i <= |s|
    ensures n <= i
  {
    if i == 0 then 0 else Skipped(s, i - 1) + if IsStart(s, i - 1) then 1 else 0
  }

  /** Escapes never start side by side. */
  lemma {:induction false} SkippedTwo(s: seq<byte>, i: nat)
    requires i + 2 <= |s|
    ensures Skipped(s, i) <= Skipped(s, i + 2) <= Skipped(s, i) + 1
  {
  }

  lemma {:induction false} SkippedSix(s: seq<byte>, i: nat)
    requires i + 6 <= |s|
    ensures Skipped(s, i + 6) <= Skipped(s, i) + 3
  {
    SkippedTwo(s, i);
    SkippedTwo(s, i + 2);
    SkippedTwo(s, i + 4);
  }

  /** What the first pass has reserved up to byte i. */
  function Room(s: seq<byte>, i: nat): (n: nat)
    requires i <= |s|
  {
    i - Skipped(s, i)
  }

  lemma {:induction false} RoomGrows(s: seq<byte>, i: nat, j: nat)
    requires i <= j <= |s|
    ensures Room(s, i) <= Room(s, j)
    decreases j
  {
    if i < j { RoomGrows(s, i, j - 1); }
  }

  /** parse_buffer. */
  class ParseBuffer {
    const content: seq<byte>
    const floats: Floats
    var offset: nat
    var depth: nat

    constructor (content: seq<byte>, floats: Floats)
      ensures offset == 0 && depth == 0 && this.content == content && this.floats == floats
    {
      this.content, this.floats, offset, depth := content, floats, 0, 0;
    }

    predicate Valid()
      reads this`offset
    {
      offset <= |content|
    }

    /** The text that is left. */
    function Rest(): seq<byte>
      requires Valid()
      reads this`offset
    {
      content[offset..]
    }

    predicate CanAccess()
      reads this`offset
    {
      offset < |content|
    }

    /** The place of an error, as it is reported. */
    method ErrorPosition() returns (position: nat)
      requires Valid() && content != []
      ensures position == if offset < |content| then offset else |content| - 1
    {
      position := 0;
      if offset < |content| {
        position := offset;
      } else if |content| > 0 {
        position := |content| - 1;
      }
    }

    /** buffer_skip_whitespace. */
    method SkipWhitespace()
      requires Valid()
      modifies this`offset
      ensures Valid() && Rest() == Skip(old(Rest())) && offset >= old(offset)
    {
      if !CanAccess() { return; }
      ghost var goal := Skip(Rest());
      while CanAccess() && content[offset] <= 32
        invariant Valid() && old(offset) <= offset
        invariant if CanAccess() then Skip(Rest()) == goal else goal == content[offset - 1..] && offset > old(offset)
        decreases |content| - offset
      {
        assert Rest()[1..] == content[offset + 1..];
        offset := offset + 1;
      }
      if offset == |content| { offset := offset - 1; }
    }

    /** Whether the text here starts with word (can_read and strncmp). */
    predicate At(word: seq<byte>)
      requires Valid()
      reads this`offset
      ensures At(word) <==> word <= Rest()
    {
      offset + |word| <= |content| && content[offset..offset + |word|] == word
    }

    /** parse_number. */
    method ParseNumberHere() returns (ok: bool, v: Value)
      requires Valid()
      modifies this`offset
      ensures Valid() && offset >= old(offset)
      ensures match ParseNumber(floats, old(Rest()))
              case Fail => !ok
              case Ok(w, rest) => ok && v == w && Rest() == rest
    {
      hide IntegerOf;
      v := Null;
      var i := 0;
      assert Rest()[0..] == Rest();
      while offset + i < |content| && IsNumberByte(content[offset + i])
        invariant offset + i <= |content|
        invariant NumberRun(Rest()) == i + NumberRun(Rest()[i..])
      {
        assert Rest()[i..][1..] == Rest()[i + 1..];
        i := i + 1;
      }
      var run := content[offset..offset + i];
      assert run == Rest()[..i];
      match Scan(floats, run)
      case None => ok := false;
      case Some((d, used)) =>
        assert content[offset + used..] == Rest()[used..];
        offset := offset + used;
        ok, v := true, Number(d);
    }

    /** The first pass of parse_string: where the literal ends, and how many
        backslashes its output does not need. */
    method FindEnd() returns (ok: bool, end: nat, skipped: nat)
      requires CanAccess() && Valid()
      ensures match Close(Rest()[1..])
              case None => !ok
              case Some(n) => ok && end == offset + 1 + n && skipped == Skipped(Rest()[1..], n)
    {
      hide EndInv;
      end, skipped := offset + 1, 0;
      ghost var s := Rest()[1..];
      assert s == content[offset + 1..];
      EndStart(s);
      while end < |content| && content[end] != 0x22
        invariant offset + 1 <= end <= |content| && EndInv(s, end - offset - 1, skipped)
        decreases |content| - end
      {
        EndStep(s, end - offset - 1, skipped);
        if content[end] == 0x5C {
          if end + 1 >= |content| { return false, end, skipped; }
          skipped := skipped + 1;
          end := end + 1;
        }
        end := end + 1;
      }
      EndFound(s, end - offset - 1, skipped);
      ok := end < |content|;
    }

    /** parse_hex4 at byte p. */
    method ParseHex4(p: nat) returns (h: nat)
      requires p + 4 <= |content|
      ensures h == Hex4(content[p..p + 4])
    {
      h := 0;
      ghost var s := content[p..p + 4];
      for i := 0 to 4
        invariant forall k :: 0 <= k < i ==> HexDigit(s[k]).Some?
        invariant i == 0 ==> h == 0
        invariant i == 1 ==> h == HexDigit(s[0]).value * 16
        invariant i == 2 ==> h == (HexDigit(s[0]).value * 16 + HexDigit(s[1]).value) * 16
        invariant i == 3 ==> h == ((HexDigit(s[0]).value * 16 + HexDigit(s[1]).value) * 16 + HexDigit(s[2]).value) * 16
        invariant i == 4 ==> h == Hex4(s)
      {
        assert s[i] == content[p + i];
        match HexDigit(content[p + i])
        case None => return 0;
        case Some(d) => h := h + d;
        if i < 3 { h := h * 16; }
      }
    }

    /** utf16_literal_to_utf8 at byte p of a literal that ends at byte end: the
        length of the escape, or 0; its UTF-8 form goes to output. */
    method Utf16LiteralToUtf8(p: nat, end: nat, output: array<byte>, at: nat) returns (len: nat, at': nat)
      requires p <= end <= |content|
      requires match Literal(content[p..], end - p) case None => true case Some(r) => at + Utf8.Width(r.0) <= output.Length
      modifies output
      ensures match Literal(content[p..], end - p)
              case None => len == 0
              case Some(r) => len == r.1 && at' == at + Utf8.Width(r.0) && output[..at'] == old(output[..at]) + Utf8.Encode(r.0)
    {
      hide Utf8.Encode, Utf8.Width, Hex4;
      ghost var s := content[p..];
      at' := at;
      if end - p < 6 { return 0, at; }
      assert s[2..6] == content[p + 2..p + 6];
      var first := ParseHex4(p + 2);
      if 0xDC00 <= first <= 0xDFFF { return 0, at; }
      var codepoint;
      if 0xD800 <= first <= 0xDBFF {
        if end - (p + 6) < 6 { return 0, at; }
        if content[p + 6] != 0x5C || content[p + 7] != 0x75 { return 0, at; }
        assert s[8..12] == content[p + 8..p + 12];
        var second := ParseHex4(p + 8);
        if second < 0xDC00 || second > 0xDFFF { return 0, at; }
        codepoint := 0x10000 + first % 0x400 * 1024 + second % 0x400;
        assert first % 0x400 == first - 0xD800 && second % 0x400 == second - 0xDC00;
        len := 12;
      } else {
        codepoint := first;
        len := 6;
      }
      at' := WriteUtf8(output, at, codepoint);
    }

    /** One character or escape of the second pass. */
    method DecodeOne(p: nat, end: nat, output: array<byte>, used: nat) returns (ok: bool, p': nat, used': nat)
      requires Valid() && CanAccess() && offset < p < end < |content| && used <= output.Length
      requires DecInv(Rest()[1..], end - offset - 1, p - offset - 1, output[..used])
      requires Room(Rest()[1..], end - offset) < output.Length
      modifies output
      ensures if !ok then Json.Unescape(Rest()[1..], end - offset - 1) == None
              else p < p' <= end + 1 && used' < output.Length && DecInv(Rest()[1..], end - offset - 1, p' - offset - 1, output[..used'])
    {
      hide DecInv, Room, Literal, ShortMeaning, Utf8.Encode, Utf8.Width, Json.Unescape;
      ghost var s := Rest()[1..];
      ghost var i := p - offset - 1;
      ghost var out := output[..used];
      DecStep(s, end - offset - 1, i, out);
      if content[p] != 0x5C {
        output[used] := content[p];
        assert output[..used + 1] == out + [s[i]];
        return true, p + 1, used + 1;
      }
      if content[p + 1] == 0x75 {
        assert s[i..] == content[p..];
        var len;
        len, used' := Utf16LiteralToUtf8(p, end, output, used);
        return len != 0, p + len, used';
      }
      match ShortMeaning(content[p + 1])
      case None => return false, p, used;
      case Some(c) =>
        output[used] := c;
        assert output[..used + 1] == out + [c];
        return true, p + 2, used + 1;
    }

    /** The second pass of parse_string: decodes the literal between the quotes
        into an array of the size the first pass estimated. */
    method Decode(end: nat, skipped: nat) returns (ok: bool, output: array<byte>, used: nat)
      requires Valid() && CanAccess()
      requires var s := Rest()[1..]; end > offset && Close(s) == Some(end - offset - 1) && skipped == Skipped(s, end - offset - 1)
      ensures fresh(output)
      ensures match Json.Unescape(Rest()[1..], end - offset - 1)
              case None => !ok
              case Some(t) => ok && used < output.Length && output[..used] == t && output[used] == 0
    {
      hide DecInv, Room, Skipped, Json.Unescape;
      ghost var s := Rest()[1..];
      ghost var n := end - offset - 1;
      var first := offset + 1;
      assert s == content[first..];
      RoomAtEnd(s, n);
      var allocation := end - offset - skipped;
      output := new byte[allocation + 1];
      var p := first;
      used := 0;
      DecStart(s, n);
      while p < end
        invariant first <= p <= end + 1 && used <= allocation && DecInv(s, n, p - first, output[..used])
        decreases end - p
      {
        ok, p, used := DecodeOne(p, end, output, used);
        if !ok { return; }
      }
      DecEnd(s, n, p - first, output[..used]);
      output[used] := 0;
      ok := true;
    }

    /** parse_string; the caller has checked that a byte is there. */
    method ParseStringHere() returns (ok: bool, value: seq<byte>)
      requires Valid() && CanAccess()
      modifies this`offset
      ensures Valid() && offset >= old(offset)
      ensures match ParseString(old(Rest()))
              case Fail => !ok
              case Ok(t, rest) => ok && value == t && Rest() == rest && offset > old(offset)
    {
      hide Close, Json.Unescape;
      value := [];
      if content[offset] != 0x22 { return false, []; }
      var found, end, skipped := FindEnd();
      if !found { return false, []; }
      var decoded, output, used := Decode(end, skipped);
      if !decoded { return false, []; }
      value := output[..used];
      assert Rest()[end + 1 - offset..] == content[end + 1..];
      offset := end + 1;
      ok := true;
    }

    /** parse_value. */
    method ParseValueHere() returns (ok: bool, v: Value)
      requires Valid()
      modifies this`offset, this`depth
      ensures Valid() && offset >= old(offset)
      ensures match ParseValue(floats, old(Rest()), old(depth))
              case Fail => !ok
              case Ok(w, rest) => ok && v == w && Rest() == rest && depth == old(depth) && offset > old(offset)
      decreases |content| - offset, 1
    {
      hide ParseString, ParseNumber, ParseItems, ParseMembers;
      ghost var s := Rest();
      v := Null;
      if At(NULL_TEXT) {
        Advance(4);
        return true, Null;
      }
      if At(FALSE_TEXT) {
        Advance(5);
        return true, False;
      }
      if At(TRUE_TEXT) {
        Advance(4);
        return true, True;
      }
      if !CanAccess() { return false, Null; }
      if content[offset] == 0x22 {
        var t;
        ok, t := ParseStringHere();
        v := Text(t);
      } else if content[offset] == 0x2D || 0x30 <= content[offset] <= 0x39 {
        ok, v := ParseNumberHere();
        if ok { assert |Rest()| < |s|; }
      } else if content[offset] == 0x5B {
        ok, v := ParseArrayHere();
      } else if content[offset] == 0x7B {
        ok, v := ParseObjectHere();
      } else {
        ok := false;
      }
    }

    method Advance(n: nat)
      requires Valid() && offset + n <= |content|
      modifies this`offset
      ensures Valid() && offset == old(offset) + n && Rest() == old(Rest())[n..]
    {
      assert Rest()[n..] == content[offset + n..];
      offset := offset + n;
    }

    /** parse_array at its bracket. */
    method ParseArrayHere() returns (ok: bool, v: Value)
      requires Valid() && CanAccess() && content[offset] == 0x5B
      modifies this`offset, this`depth
      ensures Valid() && offset >= old(offset)
      ensures match ParseValue(floats, old(Rest()), old(depth))
              case Fail => !ok
              case Ok(w, rest) => ok && v == w && Rest() == rest && depth == old(depth) && offset > old(offset)
      decreases |content| - offset, 0
    {
      hide ParseItems, Skip;
      v := Null;
      ghost var s := Rest();
      ArrayGrammar(floats, s, depth);
      if depth >= NESTING_LIMIT { return false, v; }
      depth := depth + 1;
      Advance(1);
      SkipWhitespace();
      ghost var t := Rest();
      if CanAccess() && content[offset] == 0x5D {
        depth := depth - 1;
        Advance(1);
        return true, Array(NoItems);
      }
      if !CanAccess() { return false, v; }
      var elements: seq<Value> := [];
      ghost var goal := ParseItems(floats, t, depth);
      ghost var first := offset;
      ChainNone(goal);
      while true
        invariant Valid() && first <= offset && depth == old(depth) + 1
        invariant goal == Chained(elements, ParseItems(floats, Rest(), depth))
        decreases |content| - offset
      {
        ItemsGrammar(floats, Rest(), depth, elements);
        var e;
        ok, e := ParseElementHere();
        if !ok { return false, v; }
        elements := elements + [e];
        if !(CanAccess() && content[offset] == 0x2C) { break; }
        Advance(1);
      }
      if !CanAccess() || content[offset] != 0x5D { return false, v; }
      depth := depth - 1;
      Advance(1);
      v := Array(Chain(elements, NoItems));
      ok := true;
    }

    /** One element and the blanks around it. */
    method ParseElementHere() returns (ok: bool, e: Value)
      requires Valid()
      modifies this`offset, this`depth
      ensures Valid() && offset >= old(offset)
      ensures match ParseElement(floats, old(Rest()), old(depth))
              case Fail => !ok
              case Ok(w, rest) => ok && e == w && Rest() == rest && depth == old(depth) && offset > old(offset)
      decreases |content| - offset, 2
    {
      hide Json.ParseValue, Skip;
      SkipWhitespace();
      ok, e := ParseValueHere();
      if !ok { return; }
      SkipWhitespace();
    }

    /** parse_object at its brace. */
    method ParseObjectHere() returns (ok: bool, v: Value)
      requires Valid() && CanAccess() && content[offset] == 0x7B
      modifies this`offset, this`depth
      ensures Valid() && offset >= old(offset)
      ensures match ParseValue(floats, old(Rest()), old(depth))
              case Fail => !ok
              case Ok(w, rest) => ok && v == w && Rest() == rest && depth == old(depth) && offset > old(offset)
      decreases |content| - offset, 0
    {
      hide ParseMembers, Skip;
      v := Null;
      ghost var s := Rest();
      ObjectGrammar(floats, s, depth);
      if depth >= NESTING_LIMIT { return false, v; }
      depth := depth + 1;
      Advance(1);
      SkipWhitespace();
      ghost var t := Rest();
      if CanAccess() && content[offset] == 0x7D {
        depth := depth - 1;
        Advance(1);
        return true, Object(NoMembers);
      }
      if !CanAccess() { return false, v; }
      var members: seq<(seq<byte>, Value)> := [];
      ghost var goal := ParseMembers(floats, t, depth);
      ghost var first := offset;
      LinkedNone(goal);
      while true
        invariant Valid() && first <= offset && depth == old(depth) + 1
        invariant goal == Linked(members, ParseMembers(floats, Rest(), depth))
        decreases |content| - offset
      {
        MembersGrammar(floats, Rest(), depth, members);
        if !CanAccess() { return false, v; }  // nothing comes after the comma
        var name, e;
        ok, name, e := ParseMemberHere();
        if !ok { return false, v; }
        members := members + [(name, e)];
        if !(CanAccess() && content[offset] == 0x2C) { break; }
        Advance(1);
      }
      if !CanAccess() || content[offset] != 0x7D { return false, v; }
      depth := depth - 1;
      Advance(1);
      v := Object(LinkAll(members, NoMembers));
      ok := true;
    }

    /** One member: name, colon, value and the blanks around them. */
    method ParseMemberHere() returns (ok: bool, name: seq<byte>, e: Value)
      requires Valid() && CanAccess()
      modifies this`offset, this`depth
      ensures Valid() && offset >= old(offset)
      ensures match ParseMember(floats, old(Rest()), old(depth))
              case Fail => !ok
              case Ok(m, rest) => ok && (name, e) == m && Rest() == rest && depth == old(depth) && offset > old(offset)
      decreases |content| - offset, 2
    {
      hide Json.ParseString, Json.ParseValue, Skip;
      name, e := [], Null;
      SkipWhitespace();
      SkipSome(old(Rest()));
      ok, name := ParseStringHere();
      if !ok { return; }
      SkipWhitespace();
      if !CanAccess() || content[offset] != 0x3A { return false, name, e; }
      Advance(1);
      SkipWhitespace();
      ok, e := ParseValueHere();
      if !ok { return; }
      SkipWhitespace();
    }
  }

  /** cJSON_ParseWithLengthOpts: the value, and return_parse_end, which is how much
      of the text it took or else the place of the error: some byte of the text, and
      with text behind the value the first byte of that which is not blank. */
  method ParseWithLengthOpts(text: seq<byte>, requireEnd: bool, floats: Floats) returns (ok: bool, v: Value, end: nat)
    ensures match ParseText(floats, text, requireEnd)
            case Fail => !ok && end <= |text| && (text != [] ==> end < |text|)
            case Ok(w, rest) => ok && v == w && end <= |text| && text[end..] == rest
    ensures !ok && requireEnd && text != [] ==>
              match ParseText(floats, text, false)
              case Fail => true
              case Ok(w, rest) => end == if Skip(rest) == [] then |text| - 1 else |text| - |Skip(rest)|
  {
    hide Json.ParseValue, Skip;
    v, end := Null, 0;
    if |text| == 0 { return false, v, end; }
    var buffer := new ParseBuffer(text, floats);
    assert text[0..] == text;
    if |text| > 4 && text[0] == 0xEF && text[1] == 0xBB && text[2] == 0xBF { buffer.Advance(3); }
    buffer.SkipWhitespace();
    ok, v := buffer.ParseValueHere();
    if !ok {
      end := buffer.ErrorPosition();
      return;
    }
    if requireEnd {
      buffer.SkipWhitespace();
      if !buffer.CanAccess() || text[buffer.offset] != 0 {
        end := buffer.ErrorPosition();
        return false, v, end;
      }
    }
    end := buffer.offset;
  }

  /** An element up to what ends it. */
  function ParseElement(f: Floats, s: seq<byte>, d: nat): Parse<Value> {
    match ParseValue(f, Skip(s), d) case Fail => Fail case Ok(v, after) => Ok(v, Skip(after))
  }

  /** A member up to what ends it. */
  function ParseMember(f: Floats, s: seq<byte>, d: nat): Parse<(seq<byte>, Value)> {
    match ParseString(Skip(s))
    case Fail => Fail
    case Ok(name, afterName) =>
      var c := Skip(afterName);
      if c == [] || c[0] != 0x3A then Fail
      else
        match ParseValue(f, Skip(c[1..]), d)
        case Fail => Fail
        case Ok(v, after) => Ok((name, v), Skip(after))
  }

  lemma {:induction false} SkipSome(s: seq<byte>)
    requires s != []
    ensures Skip(s) != []
  {
  }

  /** The child list with elements first. */
  function Chain(elements: seq<Value>, items: Items): Items {
    if elements == [] then items else Item(elements[0], Chain(elements[1..], items))
  }

  function Chained(elements: seq<Value>, r: Parse<Items>): Parse<Items> {
    match r case Fail => Fail case Ok(items, rest) => Ok(Chain(elements, items), rest)
  }

  function LinkAll(members: seq<(seq<byte>, Value)>, ms: Members): Members {
    if members == [] then ms else Member(members[0].0, members[0].1, LinkAll(members[1..], ms))
  }

  function Linked(members: seq<(seq<byte>, Value)>, r: Parse<Members>): Parse<Members> {
    match r case Fail => Fail case Ok(ms, rest) => Ok(LinkAll(members, ms), rest)
  }

  lemma {:induction false} ChainNone(r: Parse<Items>)
    ensures Chained([], r) == r
  {
  }

  lemma {:induction false} LinkedNone(r: Parse<Members>)
    ensures Linked([], r) == r
  {
  }

  lemma {:induction false} ChainMore(elements: seq<Value>, v: Value, items: Items)
    ensures Chain(elements, Item(v, items)) == Chain(elements + [v], items)
  {
    if elements == [] {
      assert (elements + [v])[1..] == [];
    } else {
      ChainMore(elements[1..], v, items);
      assert (elements + [v])[1..] == elements[1..] + [v];
    }
  }

  lemma {:induction false} LinkMore(members: seq<(seq<byte>, Value)>, m: (seq<byte>, Value), ms: Members)
    ensures LinkAll(members, Member(m.0, m.1, ms)) == LinkAll(members + [m], ms)
  {
    if members == [] {
      assert (members + [m])[1..] == [];
    } else {
      LinkMore(members[1..], m, ms);
      assert (members + [m])[1..] == members[1..] + [m];
    }
  }

  /** The element loop, one turn. */
  lemma {:induction false} ItemsGrammar(f: Floats, s: seq<byte>, d: nat, elements: seq<Value>)
    ensures Chained(elements, ParseItems(f, s, d))
            == match ParseElement(f, s, d)
               case Fail => Fail
               case Ok(v, t) =>
                 if t == [] then Fail
                 else if t[0] == 0x2C then Chained(elements + [v], ParseItems(f, t[1..], d))
                 else if t[0] == 0x5D then Ok(Chain(elements + [v], NoItems), t[1..])
                 else Fail
  {
    hide ParseValue, Skip, Chain;
    match ParseElement(f, s, d)
    case Fail =>
    case Ok(v, t) =>
      ChainMore(elements, v, NoItems);
      if t != [] && t[0] == 0x2C {
        match ParseItems(f, t[1..], d) case Fail => case Ok(next, _) => ChainMore(elements, v, next);
      }
  }

  /** The member loop, one turn. */
  lemma {:induction false} MembersGrammar(f: Floats, s: seq<byte>, d: nat, members: seq<(seq<byte>, Value)>)
    ensures s == [] ==> ParseMembers(f, s, d) == Fail
    ensures Linked(members, ParseMembers(f, s, d))
            == match ParseMember(f, s, d)
               case Fail => Fail
               case Ok(m, t) =>
                 if t == [] then Fail
                 else if t[0] == 0x2C then Linked(members + [m], ParseMembers(f, t[1..], d))
                 else if t[0] == 0x7D then Ok(LinkAll(members + [m], NoMembers), t[1..])
                 else Fail
  {
    hide ParseValue, LinkAll;
    match ParseMember(f, s, d)
    case Fail =>
    case Ok(m, t) =>
      LinkMore(members, m, NoMembers);
      if t != [] && t[0] == 0x2C {
        match ParseMembers(f, t[1..], d) case Fail => case Ok(next, _) => LinkMore(members, m, next);
      }
  }

  /** What the second pass knows when it has read i bytes and written out. */
  predicate DecInv(s: seq<byte>, n: nat, i: nat, out: seq<byte>) {
    && n < |s| && i <= n + 1 && s[n] == 0x22
    && Unescape(s, n) == Before(out, Unescape(s[i..], n - i))
    && |out| <= Room(s, i)
  }

  /** The estimate is the room up to and with the closing quote. */
  lemma {:induction false} RoomAtEnd(s: seq<byte>, n: nat)
    requires n < |s| && s[n] == 0x22
    ensures n + 1 - Skipped(s, n) == Room(s, n + 1) && Skipped(s, n) <= n
  {
  }

  lemma {:induction false} DecStart(s: seq<byte>, n: nat)
    requires n < |s| && s[n] == 0x22
    ensures DecInv(s, n, 0, [])
  {
    assert s[0..] == s;
    match Unescape(s, n) case None => case Some(t) => assert [] + t == t;
  }

  lemma {:induction false} BeforeMore(a: seq<byte>, b: seq<byte>, o: Option<seq<byte>>)
    ensures Before(a, Before(b, o)) == Before(a + b, o)
  {
    if o.Some? { assert a + (b + o.value) == a + b + o.value; }
  }

  /** One step of the second pass stays within the estimate. */
  lemma {:induction false} DecStep(s: seq<byte>, n: nat, i: nat, out: seq<byte>)
    requires DecInv(s, n, i, out) && i < n
    ensures i + 1 < |s|
    ensures s[i] != 0x5C ==> DecInv(s, n, i + 1, out + [s[i]]) && |out| + 1 <= Room(s, n + 1)
    ensures s[i] == 0x5C && s[i + 1] == 0x75 ==>
              match Literal(s[i..], n - i)
              case None => Unescape(s, n) == None
              case Some(r) => DecInv(s, n, i + r.1, out + Utf8.Encode(r.0)) && |out| + Utf8.Width(r.0) <= Room(s, n + 1)
    ensures s[i] == 0x5C && s[i + 1] != 0x75 ==>
              match ShortMeaning(s[i + 1])
              case None => Unescape(s, n) == None
              case Some(c) => DecInv(s, n, i + 2, out + [c]) && |out| + 1 <= Room(s, n + 1)
  {
    hide Literal, ShortMeaning, Utf8.Encode, Skipped, IsStart;
    var t := s[i..];
    if s[i] != 0x5C {
      assert t[1..] == s[i + 1..];
      BeforeMore(out, [s[i]], Unescape(s[i + 1..], n - i - 1));
      NotStart(s, i);
      RoomGrows(s, i + 1, n + 1);
    } else if s[i + 1] == 0x75 {
      match Literal(t, n - i)
      case None =>
      case Some(r) =>
        assert t[r.1..] == s[i + r.1..];
        BeforeMore(out, Utf8.Encode(r.0), Unescape(s[i + r.1..], n - i - r.1));
        SkippedSix(s, i);
        if r.1 == 12 { SkippedSix(s, i + 6); }
        RoomGrows(s, i + r.1, n + 1);
    } else {
      match ShortMeaning(s[i + 1])
      case None =>
      case Some(c) =>
        assert t[2..] == s[i + 2..];
        BeforeMore(out, [c], Unescape(s[i + 2..], n - i - 2));
        SkippedTwo(s, i);
        RoomGrows(s, i + 2, n + 1);
    }
  }

  lemma {:induction false} NotStart(s: seq<byte>, i: nat)
    requires i < |s| && s[i] != 0x5C
    ensures Skipped(s, i + 1) == Skipped(s, i)
  {
  }

  lemma {:induction false} DecEnd(s: seq<byte>, n: nat, i: nat, out: seq<byte>)
    requires DecInv(s, n, i, out) && i >= n
    ensures Unescape(s, n) == Some(out) && |out| <= Room(s, n + 1)
  {
    assert out + [] == out;
    RoomGrows(s, i, n + 1);
  }

  /** c shifted right by n groups of six bits. */
  function Shift(c: nat, n: nat): nat {
    if n == 0 then c else Shift(c, n - 1) / 64
  }

  /** The marker of a lead byte before len - 1 more. */
  function Mark(len: nat): nat {
    if len == 2 then 0xC0 else if len == 3 then 0xE0 else if len == 4 then 0xF0 else 0
  }

  lemma {:induction false} EncodeShift(c: nat, k: nat)
    requires c <= 0x10FFFF && k < Utf8.Width(c)
    ensures Utf8.Encode(c)[k] == if k == 0 then Mark(Utf8.Width(c)) + Shift(c, Utf8.Width(c) - 1) else 0x80 + Shift(c, Utf8.Width(c) - 1 - k) % 64
  {
    assert Shift(c, 0) == c && Shift(c, 1) == c / 64 && Shift(c, 2) == c / 64 / 64 && Shift(c, 3) == c / 64 / 64 / 64;
    assert c / 64 / 64 == c / 4096 && c / 64 / 64 / 64 == c / 262144;
  }

  /** The end of utf16_literal_to_utf8: the bytes of a code point, last first. */
  method WriteUtf8(output: array<byte>, at: nat, codepoint: nat) returns (at': nat)
    requires codepoint <= 0x10FFFF && at + Utf8.Width(codepoint) <= output.Length
    modifies output
    ensures at' == at + Utf8.Width(codepoint) && output[..at'] == old(output[..at]) + Utf8.Encode(codepoint)
  {
    hide Utf8.Encode, Shift;
    var c := codepoint;
    var length := if c < 0x80 then 1 else if c < 0x800 then 2 else if c < 0x10000 then 3 else 4;
    var position := length - 1;
    ShiftNone(codepoint);
    while position > 0
      invariant 0 <= position < length && c == Shift(codepoint, length - 1 - position)
      invariant forall k :: position < k < length ==> output[at + k] == Utf8.Encode(codepoint)[k]
      invariant output[..at] == old(output[..at])
    {
      EncodeShift(codepoint, position);
      ShiftMore(codepoint, length - 1 - position);
      output[at + position] := 0x80 + c % 64;
      c := c / 64;
      position := position - 1;
    }
    EncodeShift(codepoint, 0);
    output[at] := Mark(length) + c;
    at' := at + length;
    assert forall k :: 0 <= k < length ==> output[..at'][at + k] == Utf8.Encode(codepoint)[k];
  }

  lemma {:induction false} ShiftNone(c: nat)
    ensures Shift(c, 0) == c
  {
  }

  lemma {:induction false} ShiftMore(c: nat, n: nat)
    ensures Shift(c, n + 1) == Shift(c, n) / 64
  {
  }

  /** What the first pass knows at byte i. */
  predicate EndInv(s: seq<byte>, i: nat, skipped: nat) {
    i <= |s| && Close(s) == Further(Close(s[i..]), i) && skipped == Skipped(s, i) && (i > 0 ==> !IsStart(s, i - 1))
  }

  lemma {:induction false} EndStart(s: seq<byte>)
    ensures EndInv(s, 0, 0)
  {
    assert s[0..] == s;
  }

  lemma {:induction false} EndStep(s: seq<byte>, i: nat, skipped: nat)
    requires i < |s| && s[i] != 0x22 && EndInv(s, i, skipped)
    ensures s[i] != 0x5C ==> EndInv(s, i + 1, skipped)
    ensures s[i] == 0x5C && i + 1 == |s| ==> Close(s) == None
    ensures s[i] == 0x5C && i + 1 < |s| ==> EndInv(s, i + 2, skipped + 1)
  {
    var t := s[i..];
    if s[i] != 0x5C {
      assert t[1..] == s[i + 1..];
    } else if i + 1 < |s| {
      assert t[2..] == s[i + 2..];
      assert IsStart(s, i) && !IsStart(s, i + 1);
    }
  }

  lemma {:induction false} EndFound(s: seq<byte>, i: nat, skipped: nat)
    requires i <= |s| && EndInv(s, i, skipped) && (i < |s| ==> s[i] == 0x22)
    ensures Close(s) == if i < |s| then Some(i) else None
    ensures i <= |s| && skipped == Skipped(s, i)
  {
  }

  /** On every input the decoded bytes and their terminator fit the size the
      first pass estimates: the literal's length with its quote, less the skipped
      backslashes, plus one. */
  lemma {:induction false} EstimateSuffices(s: seq<byte>)
    requires Close(s).Some? && Unescape(s, Close(s).value).Some?
    ensures var n := Close(s).value; |Unescape(s, n).value| + 1 <= (n + 1 - Skipped(s, n)) + 1
  {
    var n := Close(s).value;
    RoomAtEnd(s, n);
    DecStart(s, n);
    EstimateFrom(s, n, 0, []);
  }

  lemma {:induction false} EstimateFrom(s: seq<byte>, n: nat, i: nat, out: seq<byte>)
    requires DecInv(s, n, i, out) && Unescape(s, n).Some?
    ensures |Unescape(s, n).value| <= Room(s, n + 1)
    decreases n + 1 - i
  {
    hide DecInv, Unescape, Room, Literal, Utf8.Encode, ShortMeaning;
    DecBounds(s, n, i, out);
    if i >= n {
      DecEnd(s, n, i, out);
    } else {
      DecStep(s, n, i, out);
      if s[i] != 0x5C {
        EstimateFrom(s, n, i + 1, out + [s[i]]);
      } else if s[i + 1] == 0x75 {
        var r := Literal(s[i..], n - i).value;
        EstimateFrom(s, n, i + r.1, out + Utf8.Encode(r.0));
      } else {
        EstimateFrom(s, n, i + 2, out + [ShortMeaning(s[i + 1]).value]);
      }
    }
  }

  lemma {:induction false} DecBounds(s: seq<byte>, n: nat, i: nat, out: seq<byte>)
    requires DecInv(s, n, i, out)
    ensures n < |s| && i <= n + 1
  {
  }
}
