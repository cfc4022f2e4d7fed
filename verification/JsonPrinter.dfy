/**
 The print buffer of cJSON.c and the functions that print into it, proved
 against the renderer of module Json: whenever printing succeeds the buffer
 holds exactly the rendering, whatever the starting capacity and however the
 buffer grew.
 */
module JsonPrinter {
  import opened Bytes
  import opened Json

  /** Strings as C has them: without a zero byte. */
  predicate CStrings(v: Value) {
    match v
    case Text(s) => NulFree(s)
    case Array(items) => CStringItems(items)
    case Object(ms) => CStringMembers(ms)
    case _ => true
  }

  predicate CStringItems(items: Items) {
    items.Item? ==> CStrings(items.value) && CStringItems(items.next)
  }

  predicate CStringMembers(ms: Members) {
    ms.Member? ==> NulFree(ms.name) && CStrings(ms.value) && CStringMembers(ms.next)
  }

  /** Every number fits the 26-byte buffer that print_number writes it to first. */
  predicate ShortNumbers(f: Floats, v: Value) {
    match v
    case Number(d) => |NumberText(f, d)| <= 25
    case Array(items) => ShortItems(f, items)
    case Object(ms) => ShortMembers(f, ms)
    case _ => true
  }

  predicate ShortItems(f: Floats, items: Items) {
    items.Item? ==> ShortNumbers(f, items.value) && ShortItems(f, items.next)
  }

  predicate ShortMembers(f: Floats, ms: Members) {
    ms.Member? ==> ShortNumbers(f, ms.value) && ShortMembers(f, ms.next)
  }

  /** A value that nests n deep can be printed at depth d. */
  predicate Within(d: nat, n: nat) { n == 0 || d + n <= NESTING_LIMIT }

  /** sprintf's text holds no zero byte. */
  ghost predicate CFloats(f: Floats) {
    forall d :: NulFree(f.text(d))
  }

  /** printbuffer. */
  class PrintBuffer {
    var buffer: array?<byte>
    var length: nat
    var offset: nat
    var depth: nat
    const noalloc: bool
    const format: bool
    /** The allocator: whether it grants its k-th request, and how many were made. */
    const answers: nat -> bool
    var calls: nat
    /** hooks.reallocate is set. */
    const canReallocate: bool
    const floats: Floats

    constructor (buffer: array<byte>, noalloc: bool, format: bool, canReallocate: bool, floats: Floats, answers: nat -> bool, calls: nat)
      requires buffer.Length <= INT_MAX
      ensures Valid() && Contents() == [] && depth == 0 && this.buffer == buffer && offset == 0
      ensures this.noalloc == noalloc && this.format == format && this.canReallocate == canReallocate && this.floats == floats
      ensures this.answers == answers && this.calls == calls
    {
      this.buffer, length, offset, depth := buffer, buffer.Length, 0, 0;
      this.noalloc, this.format, this.canReallocate, this.floats := noalloc, format, canReallocate, floats;
      this.answers, this.calls := answers, calls;
    }

    ghost predicate Valid()
      reads this`buffer, this`length, this`offset
    {
      buffer != null ==> length == buffer.Length <= INT_MAX && (offset < length || offset == length == 0)
    }

    ghost function Repr(): set<object>
      reads this`buffer
    {
      if buffer == null then {} else {buffer}
    }

    /** The bytes before offset. */
    ghost function Contents(): seq<byte>
      requires Valid()
      reads this`buffer, this`length, this`offset, Repr()
    {
      if buffer == null then [] else buffer[..offset]
    }

    /** The buffer holds base and then text, and offset is behind them. */
    ghost predicate Extended(base: seq<byte>, text: seq<byte>)
      reads this`buffer, this`length, this`offset, Repr()
    {
      Valid() && buffer != null && Contents() == base + text
    }

    lemma ExtendedMore(base: seq<byte>, done: seq<byte>, text: seq<byte>)
      requires Extended(base + done, text)
      ensures Extended(base, done + text)
    {
      assert base + done + text == base + (done + text);
    }

    lemma ExtendedIs(base: seq<byte>, done: seq<byte>)
      requires Extended(base, done)
      ensures Valid() && buffer != null && Contents() == base + done
    {
    }

    lemma ExtendedNone()
      requires Valid() && buffer != null
      ensures Extended(Contents(), [])
    {
    }

    /** text follows base, with its terminator and a spare byte, and offset is somewhere in text. */
    ghost predicate Holds(base: seq<byte>, text: seq<byte>)
      reads this`buffer, this`length, this`offset, Repr()
    {
      && buffer != null && length == buffer.Length
      && |base| <= offset <= |base| + |text| && |base| + |text| + 2 <= length <= INT_MAX
      && buffer[..|base| + |text|] == base + text
      && buffer[|base| + |text|] == 0
    }

    /** ensure: room for needed more bytes and a terminator.  Everything before
        offset is kept; allocation may fail, which drops the buffer. */
    method Ensure(needed: nat) returns (ok: bool)
      requires Valid()
      modifies this`calls, this`buffer, this`length
      ensures Valid() && Moved()
      ensures ok ==> old(buffer) != null && buffer != null && offset + needed < length && Contents() == old(Contents())
      ensures !ok ==> Refused(offset + needed + 1)
    {
      if buffer == null { return false; }
      if length > 0 && offset >= length { return false; }
      if needed > INT_MAX { return false; }
      var total := needed + offset + 1;
      if total <= length { return true; }
      if noalloc { return false; }
      var newsize;
      if total > INT_MAX / 2 {
        if total <= INT_MAX { newsize := INT_MAX; } else { return false; }
      } else {
        newsize := total * 2;
      }
      calls := calls + 1;
      if !answers(calls - 1) {
        length := 0;
        buffer := null;
        return false;
      }
      var newbuffer := new byte[newsize];
      // realloc keeps the whole old buffer; otherwise the first offset + 1 bytes are
      // copied, of which an empty buffer has none.
      var keep := if canReallocate then length else Min(offset + 1, length);
      CopyBytes(newbuffer, buffer, keep);
      length := newsize;
      buffer := newbuffer;
      return true;
    }

    /** The copy path of ensure takes offset + 1 bytes of the old buffer.  It has that
        many exactly when it is not empty. */
    lemma CopyStaysInside()
      requires Valid() && buffer != null
      ensures offset + 1 <= length <==> length > 0
    {
    }

    /** update_offset: moves offset to the terminator. */
    method UpdateOffset(ghost base: seq<byte>, ghost text: seq<byte>)
      requires Holds(base, text) && NulFree(text)
      modifies this`offset
      ensures Valid() && buffer != null && Contents() == base + text && offset < length && buffer[offset] == 0
    {
      ghost var end := |base| + |text|;
      assert forall i :: 0 <= i < end ==> buffer[i] == (base + text)[i];
      assert forall i :: |base| <= i < end ==> (base + text)[i] != 0;
      var k := 0;
      while buffer[offset + k] != 0
        invariant offset + k <= end
        decreases end - k
      {
        k := k + 1;
      }
      offset := offset + k;
    }

    /** Copies text and a terminator to offset. */
    method CopyText(text: seq<byte>)
      requires Valid() && buffer != null && offset + |text| + 1 < length
      modifies Repr()
      ensures Valid() && Holds(old(Contents()), text)
    {
      ghost var base := Contents();
      var i := 0;
      while i < |text|
        invariant 0 <= i <= |text| && buffer[..offset + i] == base + text[..i]
        modifies Repr()
      {
        buffer[offset + i] := text[i];
        i := i + 1;
      }
      buffer[offset + i] := 0;
      assert text[..i] == text;
    }

    /** Writes text at offset and moves past it. */
    method Append(text: seq<byte>)
      requires Valid() && buffer != null && offset + |text| < length
      modifies this`offset, Repr()
      ensures Valid() && Contents() == old(Contents()) + text
    {
      ghost var base := Contents();
      var i := 0;
      while i < |text|
        invariant 0 <= i <= |text| && buffer[..offset + i] == base + text[..i]
        modifies Repr()
      {
        buffer[offset + i] := text[i];
        i := i + 1;
      }
      assert text[..i] == text;
      offset := offset + |text|;
    }

    /** The buffer is where it was, gone, or new and no shorter; a preallocated one stays. */
    twostate predicate Moved()
      reads this`buffer, this`length
    {
      && (buffer == old(buffer) || (!noalloc && (buffer == null || fresh(buffer))))
      && (buffer != null ==> length >= old(length))
    }

    /** Why a print that needs a buffer of n bytes gave up: the buffer had fewer, and
        it is preallocated, the allocator said no, or it would pass INT_MAX. */
    twostate predicate Refused(n: nat)
      reads this`buffer, this`calls
    {
      || old(buffer) == null
      || (n > old(length) && (noalloc || Denied() || n > INT_MAX))
    }

    /** The allocator has said no, and the buffer is lost. */
    ghost predicate Denied()
      reads this`buffer, this`calls
    {
      buffer == null && calls > 0 && !answers(calls - 1)
    }

    /** print_number; longer texts than the 25 bytes sprintf has room for fail. */
    method PrintNumber(d: Double) returns (ok: bool)
      requires Valid()
      modifies this`calls, this`buffer, this`length, this`offset, Repr()
      ensures Valid() && Moved()
      ensures ok ==> old(buffer) != null && Holds(old(Contents()), NumberText(floats, d)) && |NumberText(floats, d)| <= 25
      ensures !ok && |NumberText(floats, d)| <= 25 ==> Refused(old(offset) + |NumberText(floats, d)| + 2)
    {
      var text := NumberText(floats, d);
      if |text| > 25 { return false; }
      ok := Ensure(|text| + 1);
      if !ok { return false; }
      CopyText(text);
      offset := offset + |text|;
    }

    /** print_string_ptr. */
    method PrintStringPtr(input: seq<byte>) returns (ok: bool)
      requires Valid()
      modifies this`calls, this`buffer, this`length, Repr()
      ensures Valid() && Moved()
      ensures ok ==> old(buffer) != null && Holds(old(Contents()), Quoted(input))
      ensures !ok ==> Refused(old(offset) + |Quoted(input)| + 2)
    {
      hide EscapeByte, Escape, Quoted;
      QuotedLength(input);
      var escapes := CountEscapes(input);
      var outputLength := |input| + escapes;
      ok := Ensure(outputLength + 3);
      if !ok { return false; }
      ghost var base := Contents();
      assert base == old(Contents());
      if escapes == 0 {
        QuotedPlain(input);
        CopyText([0x22] + input + [0x22]);
        return true;
      }
      WriteQuoted(buffer, offset, input, outputLength, base);
    }

    /** A constant text: ensure, then strcpy. */
    method PrintConstant(text: seq<byte>) returns (ok: bool)
      requires Valid()
      modifies this`calls, this`buffer, this`length, Repr()
      ensures Valid() && Moved()
      ensures ok ==> old(buffer) != null && Holds(old(Contents()), text)
      ensures !ok ==> Refused(old(offset) + |text| + 2)
    {
      ok := Ensure(|text| + 1);
      if !ok { return false; }
      CopyText(text);
    }

    /** Punctuation: room for it, and offset past it. */
    method PutPunctuation(text: seq<byte>, needed: nat) returns (ok: bool)
      requires Valid() && |text| <= needed <= |text| + 1
      modifies this`calls, this`buffer, this`length, this`offset, Repr()
      ensures Valid() && Moved()
      ensures ok ==> old(buffer) != null && buffer != null && Contents() == old(Contents()) + text
      ensures !ok ==> Refused(old(offset) + |text| + 2)
    {
      ok := Ensure(needed);
      if !ok { return false; }
      Append(text);
    }

    /** The start of an array or object: its bracket, one level deeper. */
    method Open(text: seq<byte>, needed: nat) returns (ok: bool)
      requires Valid() && |text| <= needed <= |text| + 1
      modifies this`calls, this`buffer, this`length, this`offset, this`depth, Repr()
      ensures Valid() && Moved()
      ensures ok ==> old(buffer) != null && Extended(old(Contents()), text) && depth == old(depth) + 1
      ensures !ok ==> Refused(old(offset) + |text| + 2)
    {
      ok := PutPunctuation(text, needed);
      if ok { depth := depth + 1; }
    }

    /** The end of an array or object: text that completes what is already there. */
    method PutEnd(text: seq<byte>, needed: nat, ghost base: seq<byte>, ghost before: seq<byte>) returns (ok: bool)
      requires Valid() && needed == |text| + 1 && depth > 0 && Extended(base, before)
      modifies this`calls, this`buffer, this`length, this`depth, Repr()
      ensures Valid() && Moved()
      ensures ok ==> Holds(base, before + text) && depth == old(depth) - 1
      ensures !ok ==> Refused(old(offset) + |text| + 2)
    {
      hide Holds, Extended;
      ExtendedIs(base, before);
      ok := Ensure(needed);
      if !ok { return false; }
      CopyText(text);
      HoldsMore(base, before, text);
      depth := depth - 1;
    }

    lemma HoldsMore(base: seq<byte>, before: seq<byte>, text: seq<byte>)
      requires Holds(base + before, text)
      ensures Holds(base, before + text)
    {
      assert base + before + text == base + (before + text);
    }

    /** print_value. */
    method PrintValue(v: Value) returns (ok: bool)
      requires Valid() && CStrings(v) && CFloats(floats)
      modifies this`calls, this`buffer, this`length, this`offset, this`depth, Repr()
      ensures Valid() && Moved()
      ensures ok ==> depth == old(depth) && old(buffer) != null && Holds(old(Contents()), Render(floats, v, depth, format))
      ensures ok ==> Within(depth, Depth(v)) && ShortNumbers(floats, v)
      ensures !ok && Within(old(depth), Depth(v)) && ShortNumbers(floats, v) ==>
                Refused(old(offset) + |Render(floats, v, old(depth), format)| + 2)
      decreases v, 1
    {
      match v
      case Null => ok := PrintConstant(NULL_TEXT);
      case False => ok := PrintConstant(FALSE_TEXT);
      case True => ok := PrintConstant(TRUE_TEXT);
      case Number(d) => ok := PrintNumber(d);
      case Text(s) => ok := PrintStringPtr(s);
      case Array(items) => ok := PrintArray(items);
      case Object(ms) => ok := PrintObject(ms);
    }

    /** print_value and update_offset, as arrays and objects call them. */
    method PrintPart(v: Value) returns (ok: bool)
      requires Valid() && CStrings(v) && CFloats(floats)
      modifies this`calls, this`buffer, this`length, this`offset, this`depth, Repr()
      ensures Valid() && Moved()
      ensures ok ==> depth == old(depth) && old(buffer) != null && buffer != null
                     && Contents() == old(Contents()) + Render(floats, v, depth, format)
      ensures ok ==> offset < length && buffer[offset] == 0
      ensures ok ==> Within(depth, Depth(v)) && ShortNumbers(floats, v)
      ensures !ok && Within(old(depth), Depth(v)) && ShortNumbers(floats, v) ==>
                Refused(old(offset) + |Render(floats, v, old(depth), format)| + 2)
      ensures ok ==> old(offset) + |Render(floats, v, depth, format)| + 2 <= length
      decreases v, 2
    {
      ghost var base := if buffer == null then [] else Contents();
      ok := PrintValue(v);
      if !ok { return false; }
      RenderNulFree(floats, v, depth, format);
      UpdateOffset(base, Render(floats, v, depth, format));
    }

    /** One element of an array, with the comma after it unless it is the last. */
    method PrintElement(v: Value, last: bool) returns (ok: bool)
      requires Valid() && CStrings(v) && CFloats(floats)
      modifies this`calls, this`buffer, this`length, this`offset, this`depth, Repr()
      ensures Valid() && Moved()
      ensures ok ==> depth == old(depth) && old(buffer) != null && buffer != null
                     && Extended(old(Contents()), Render(floats, v, depth, format) + if last then [] else Comma(format))
      ensures ok ==> Within(depth, Depth(v)) && ShortNumbers(floats, v)
      ensures !ok && Within(old(depth), Depth(v)) && ShortNumbers(floats, v) ==>
                Refused(old(offset) + |Render(floats, v, old(depth), format) + if last then [] else Comma(format)| + 2)
      decreases v, 3
    {
      ok := PrintPart(v);
      if !ok { return; }
      ghost var r := Render(floats, v, depth, format);
      assert r + [] == r;
      if last { return; }
      var comma := Comma(format);
      ghost var base := old(Contents());
      assert base + r + comma == base + (r + comma);
      ok := PutPunctuation(comma, |comma| + 1);
    }

    /** The loop of print_array. */
    method PrintElements(items: Items) returns (ok: bool)
      requires Valid() && CStringItems(items) && CFloats(floats)
      modifies this`calls, this`buffer, this`length, this`offset, this`depth, Repr()
      ensures Valid() && Moved()
      ensures ok ==> depth == old(depth) && old(buffer) != null && buffer != null
                     && Extended(old(Contents()), RenderItems(floats, items, depth, format))
      ensures ok ==> Within(depth, ItemsDepth(items)) && ShortItems(floats, items)
      ensures !ok && Within(old(depth), ItemsDepth(items)) && ShortItems(floats, items) ==>
                Refused(old(offset) + |RenderItems(floats, items, old(depth), format)| + 2)
      decreases items, 0
    {
      hide Render, Depth, CStrings, CFloats, Extended, RenderItems, CStringItems, ItemsDepth, ShortNumbers, ShortItems;
      if buffer == null { return false; }
      ghost var base := Contents();
      ghost var done: seq<byte>, seen: nat := [], 0;
      var current := items;
      ExtendedNone();
      assert done + RenderItems(floats, items, depth, format) == RenderItems(floats, items, depth, format);
      while current.Item?
        invariant Valid() && Moved() && depth == old(depth) && Extended(base, done)
        invariant (current == items || current < items) && CStringItems(current)
        invariant done + RenderItems(floats, current, depth, format) == RenderItems(floats, items, depth, format)
        invariant ItemsDepth(items) == Max(seen, ItemsDepth(current)) && Within(depth, seen)
        invariant ShortItems(floats, items) <==> ShortItems(floats, current)
        decreases current
      {
        ItemsStep(floats, current, depth, format, done);
        ExtendedIs(base, done);
        ok := PrintElement(current.value, current.next.NoItems?);
        if !ok { return false; }
        ghost var text := Render(floats, current.value, depth, format) + if current.next.NoItems? then [] else Comma(format);
        ExtendedMore(base, done, text);
        done := done + text;
        seen := Max(seen, Depth(current.value));
        current := current.next;
      }
      ItemsStop(floats, depth, format, done);
      ExtendedIs(base, done);
      return true;
    }

    /** print_array. */
    method PrintArray(items: Items) returns (ok: bool)
      requires Valid() && CStringItems(items) && CFloats(floats)
      modifies this`calls, this`buffer, this`length, this`offset, this`depth, Repr()
      ensures Valid() && Moved()
      ensures ok ==> depth == old(depth) && old(buffer) != null && Holds(old(Contents()), Render(floats, Array(items), depth, format))
      ensures ok ==> depth + 1 + ItemsDepth(items) <= NESTING_LIMIT && ShortItems(floats, items)
      ensures !ok && old(depth) + 1 + ItemsDepth(items) <= NESTING_LIMIT && ShortItems(floats, items) ==>
                Refused(old(offset) + |Render(floats, Array(items), old(depth), format)| + 2)
      decreases items, 1
    {
      hide RenderItems, ItemsDepth, CStringItems, CFloats, Extended, Holds, ShortItems;
      if depth >= NESTING_LIMIT { return false; }
      ghost var base := if buffer == null then [] else Contents();
      ok := Open([0x5B], 1);
      if !ok { return false; }
      ghost var body := RenderItems(floats, items, depth, format);
      ExtendedIs(base, [0x5B]);
      ok := PrintElements(items);
      if !ok { return false; }
      ExtendedMore(base, [0x5B], body);
      ExtendedIs(base, [0x5B] + body);
      ok := PutEnd([0x5D], 2, base, [0x5B] + body);
    }

    /** The indentation, the key and the colon of a member. */
    method PrintName(name: seq<byte>) returns (ok: bool)
      requires Valid() && NulFree(name)
      modifies this`calls, this`buffer, this`length, this`offset, Repr()
      ensures Valid() && Moved()
      ensures ok ==> old(buffer) != null
                     && Extended(old(Contents()), (if format then Tabs(depth) else []) + Quoted(name) + Colon(format))
      ensures !ok ==> Refused(old(offset) + |(if format then Tabs(depth) else []) + Quoted(name) + Colon(format)| + 2)
    {
      hide Extended, Quoted, Colon, Tabs;
      if buffer == null { return false; }
      ghost var base := Contents();
      ghost var text: seq<byte> := [];
      ExtendedNone();
      if format {
        ok := PutPunctuation(Tabs(depth), depth);
        if !ok { return false; }
        text := Tabs(depth);
        ExtendedIntro(base, text);
      }
      ExtendedIs(base, text);
      ok := PrintKey(name);
      if !ok { return false; }
      ExtendedMore(base, text, Quoted(name));
      text := text + Quoted(name);
      ExtendedIs(base, text);
      var colon := Colon(format);
      ok := PutPunctuation(colon, |colon|);
      if !ok { return false; }
      ExtendedIntro(base + text, colon);
      ExtendedMore(base, text, colon);
    }

    lemma ExtendedIntro(base: seq<byte>, text: seq<byte>)
      requires Valid() && buffer != null && Contents() == base + text
      ensures Extended(base, text)
    {
    }

    method PrintKey(name: seq<byte>) returns (ok: bool)
      requires Valid() && NulFree(name)
      modifies this`calls, this`buffer, this`length, this`offset, Repr()
      ensures Valid() && Moved()
      ensures ok ==> old(buffer) != null && Extended(old(Contents()), Quoted(name))
      ensures !ok ==> Refused(old(offset) + |Quoted(name)| + 2)
    {
      hide Quoted, Holds;
      ghost var base := if buffer == null then [] else Contents();
      ok := PrintStringPtr(name);
      if !ok { return false; }
      EscapeNulFree(name);
      UpdateOffset(base, Quoted(name));
    }

    /** A member's value and what ends the member. */
    method PrintMemberValue(v: Value, last: bool) returns (ok: bool)
      requires Valid() && CStrings(v) && CFloats(floats)
      modifies this`calls, this`buffer, this`length, this`offset, this`depth, Repr()
      ensures Valid() && Moved()
      ensures ok ==> depth == old(depth) && old(buffer) != null
                     && Extended(old(Contents()), Render(floats, v, depth, format) + MemberEnd(last, format))
      ensures ok ==> Within(depth, Depth(v)) && ShortNumbers(floats, v)
      ensures !ok && Within(old(depth), Depth(v)) && ShortNumbers(floats, v) ==>
                Refused(old(offset) + |Render(floats, v, old(depth), format) + MemberEnd(last, format)| + 2)
      decreases v, 3
    {
      hide Extended, Render, MemberEnd, Depth, ShortNumbers;
      ok := PrintPart(v);
      if !ok { return; }
      ghost var base, r := old(Contents()), Render(floats, v, depth, format);
      ExtendedIntro(base, r);
      var end := MemberEnd(last, format);
      ok := PutPunctuation(end, |end| + 1);
      if !ok { return; }
      ExtendedIntro(base + r, end);
      ExtendedMore(base, r, end);
    }

    /** One member of an object, up to the start of the next. */
    method PrintMember(name: seq<byte>, v: Value, last: bool) returns (ok: bool)
      requires Valid() && NulFree(name) && CStrings(v) && CFloats(floats)
      modifies this`calls, this`buffer, this`length, this`offset, this`depth, Repr()
      ensures Valid() && Moved()
      ensures ok ==> depth == old(depth) && old(buffer) != null && buffer != null
                     && Extended(old(Contents()), MemberText(floats, name, v, last, depth, format))
      ensures ok ==> Within(depth, Depth(v)) && ShortNumbers(floats, v)
      ensures !ok && Within(old(depth), Depth(v)) && ShortNumbers(floats, v) ==>
                Refused(old(offset) + |MemberText(floats, name, v, last, old(depth), format)| + 2)
      decreases v, 4
    {
      hide Extended, Render, MemberEnd, Depth, ShortNumbers, Quoted, Colon, Tabs, CStrings, CFloats;
      if buffer == null { return false; }
      ghost var base := Contents();
      ghost var start := (if format then Tabs(depth) else []) + Quoted(name) + Colon(format);
      ghost var end := Render(floats, v, depth, format) + MemberEnd(last, format);
      ok := PrintName(name);
      if !ok { return; }
      ExtendedIs(base, start);
      ok := PrintMemberValue(v, last);
      if !ok { return; }
      ExtendedMore(base, start, end);
      ExtendedIs(base, start + end);
    }

    /** The loop of print_object. */
    method PrintMembers(ms: Members) returns (ok: bool)
      requires Valid() && CStringMembers(ms) && CFloats(floats)
      modifies this`calls, this`buffer, this`length, this`offset, this`depth, Repr()
      ensures Valid() && Moved()
      ensures ok ==> depth == old(depth) && old(buffer) != null && buffer != null
                     && Extended(old(Contents()), RenderMembers(floats, ms, depth, format))
      ensures ok ==> Within(depth, MembersDepth(ms)) && ShortMembers(floats, ms)
      ensures !ok && Within(old(depth), MembersDepth(ms)) && ShortMembers(floats, ms) ==>
                Refused(old(offset) + |RenderMembers(floats, ms, old(depth), format)| + 2)
      decreases ms, 0
    {
      hide Render, Depth, CStrings, CFloats, Extended, RenderMembers, CStringMembers, MembersDepth, MemberText, ShortNumbers, ShortMembers;
      if buffer == null { return false; }
      ghost var base := Contents();
      ghost var done: seq<byte>, seen: nat := [], 0;
      var current := ms;
      ExtendedNone();
      assert done + RenderMembers(floats, ms, depth, format) == RenderMembers(floats, ms, depth, format);
      while current.Member?
        invariant Valid() && Moved() && depth == old(depth) && Extended(base, done)
        invariant (current == ms || current < ms) && CStringMembers(current)
        invariant done + RenderMembers(floats, current, depth, format) == RenderMembers(floats, ms, depth, format)
        invariant MembersDepth(ms) == Max(seen, MembersDepth(current)) && Within(depth, seen)
        invariant ShortMembers(floats, ms) <==> ShortMembers(floats, current)
        decreases current
      {
        MembersStep(floats, current, depth, format, done);
        ExtendedIs(base, done);
        ok := PrintMember(current.name, current.value, current.next.NoMembers?);
        if !ok { return false; }
        ghost var text := MemberText(floats, current.name, current.value, current.next.NoMembers?, depth, format);
        ExtendedMore(base, done, text);
        done := done + text;
        seen := Max(seen, Depth(current.value));
        current := current.next;
      }
      MembersStop(floats, depth, format, done);
      ExtendedIs(base, done);
      return true;
    }

    /** print_object. */
    method PrintObject(ms: Members) returns (ok: bool)
      requires Valid() && CStringMembers(ms) && CFloats(floats)
      modifies this`calls, this`buffer, this`length, this`offset, this`depth, Repr()
      ensures Valid() && Moved()
      ensures ok ==> depth == old(depth) && old(buffer) != null && Holds(old(Contents()), Render(floats, Object(ms), depth, format))
      ensures ok ==> depth + 1 + MembersDepth(ms) <= NESTING_LIMIT && ShortMembers(floats, ms)
      ensures !ok && old(depth) + 1 + MembersDepth(ms) <= NESTING_LIMIT && ShortMembers(floats, ms) ==>
                Refused(old(offset) + |Render(floats, Object(ms), old(depth), format)| + 2)
      decreases ms, 1
    {
      hide Render, RenderMembers, MembersDepth, CStringMembers, CFloats, Extended, Holds, Tabs, ShortMembers;
      if depth >= NESTING_LIMIT { return false; }
      ObjectIs(floats, ms, depth, format);
      ghost var base := if buffer == null then [] else Contents();
      var start := if format then [0x7B, 0x0A] else [0x7B];
      ok := Open(start, |start| + 1);
      if !ok { return false; }
      ghost var body := RenderMembers(floats, ms, depth, format);
      ExtendedIs(base, start);
      ok := PrintMembers(ms);
      if !ok { return false; }
      ExtendedMore(base, start, body);
      ExtendedIs(base, start + body);
      var end := (if format then Tabs(depth - 1) else []) + [0x7D];
      ok := PutEnd(end, if format then depth + 1 else 2, base, start + body);
    }
  }

  /** What printing v demands of the value itself. */
  predicate Printable(f: Floats, v: Value) {
    Depth(v) <= NESTING_LIMIT && ShortNumbers(f, v)
  }

  /** print: cJSON_Print and cJSON_PrintUnformatted.  An array that holds the
      rendering and its terminator and nothing else; or NULL, because the value
      cannot be printed, needs more than INT_MAX bytes, or some request of memory
      was not granted. */
  method Print(v: Value, fmt: bool, canReallocate: bool, floats: Floats, answers: nat -> bool) returns (printed: array?<byte>)
    requires CStrings(v) && CFloats(floats)
    ensures printed != null ==> fresh(printed) && printed[..] == Render(floats, v, 0, fmt) + [0]
    ensures printed != null ==> Printable(floats, v) && |Render(floats, v, 0, fmt)| + 2 <= INT_MAX && answers(0)
    ensures (forall k :: answers(k)) ==>
              (printed != null <==> Printable(floats, v) && |Render(floats, v, 0, fmt)| + 2 <= INT_MAX)
  {
    hide Render, CStrings, CFloats, Depth, ShortNumbers;
    if !answers(0) { return null; }
    var p, ok := PrintGrowing(v, fmt, canReallocate, floats, answers);
    if !ok { return null; }
    if !answers(p.calls) { return null; }
    printed := Shrink(p);
  }

  /** The part of print that fills a growing buffer of first 256 bytes. */
  method PrintGrowing(v: Value, fmt: bool, canReallocate: bool, floats: Floats, answers: nat -> bool)
      returns (p: PrintBuffer, ok: bool)
    requires CStrings(v) && CFloats(floats)
    ensures ok ==> p.Valid() && p.buffer != null && p.offset < p.length && p.buffer[p.offset] == 0
                   && p.Contents() == Render(floats, v, 0, fmt)
                   && Printable(floats, v) && |Render(floats, v, 0, fmt)| + 2 <= INT_MAX
    ensures (forall k :: answers(k)) ==> (ok <==> Printable(floats, v) && |Render(floats, v, 0, fmt)| + 2 <= INT_MAX)
  {
    hide Render, CStrings, CFloats, Depth, ShortNumbers;
    var first := new byte[256];
    p := new PrintBuffer(first, false, fmt, canReallocate, floats, answers, 1);
    ok := p.PrintPart(v);
    assert [] + Render(floats, v, 0, fmt) == Render(floats, v, 0, fmt);
  }

  /** The end of print: an array of exactly the text and its terminator, by
      reallocating or by copying. */
  method Shrink(p: PrintBuffer) returns (printed: array<byte>)
    requires p.Valid() && p.buffer != null && p.offset < p.length && p.buffer[p.offset] == 0
    ensures fresh(printed) && printed[..] == p.Contents() + [0]
  {
    var n := p.offset + 1;
    printed := new byte[n];
    CopyBytes(printed, p.buffer, if p.canReallocate then n else Min(p.length, n));
    if !p.canReallocate { printed[p.offset] := 0; }
    assert p.buffer[..n] == p.buffer[..p.offset] + [0];
  }

  /** cJSON_PrintBuffered: the first buffer has prebuffer bytes.  If they are enough
      for the text and two bytes more, nothing else is ever requested. */
  method PrintBuffered(v: Value, prebuffer: int, fmt: bool, canReallocate: bool, floats: Floats, answers: nat -> bool)
      returns (printed: array?<byte>)
    requires CStrings(v) && CFloats(floats) && prebuffer <= INT_MAX
    ensures printed != null ==> var text := Render(floats, v, 0, fmt);
              |text| < printed.Length && printed[..|text|] == text && printed[|text|] == 0
    ensures printed != null ==>
              Printable(floats, v) && prebuffer >= 0 && |Render(floats, v, 0, fmt)| + 2 <= INT_MAX && answers(0)
    ensures (forall k :: answers(k)) ==>
              (printed != null <==> prebuffer >= 0 && Printable(floats, v) && |Render(floats, v, 0, fmt)| + 2 <= INT_MAX)
    ensures |Render(floats, v, 0, fmt)| + 2 <= prebuffer ==> (printed != null <==> Printable(floats, v) && answers(0))
  {
    hide Render, CStrings, CFloats, Depth, ShortNumbers;
    if prebuffer < 0 { return null; }
    if !answers(0) { return null; }
    var first := new byte[prebuffer];
    var p := new PrintBuffer(first, false, fmt, canReallocate, floats, answers, 1);
    var ok := p.PrintValue(v);
    if !ok { return null; }
    assert [] + Render(floats, v, 0, fmt) == Render(floats, v, 0, fmt);
    return p.buffer;
  }

  /** cJSON_PrintPreallocated into a buffer of the caller: it succeeds exactly when
      the value can be printed and the buffer has room for the text, its terminator
      and one spare byte. */
  method PrintPreallocated(v: Value, buffer: array<byte>, fmt: bool, floats: Floats) returns (ok: bool)
    requires CStrings(v) && CFloats(floats) && buffer.Length <= INT_MAX
    modifies buffer
    ensures ok <==> Printable(floats, v) && |Render(floats, v, 0, fmt)| + 2 <= buffer.Length
    ensures ok ==> var text := Render(floats, v, 0, fmt);
              buffer[..|text|] == text && buffer[|text|] == 0
  {
    hide Render, CStrings, CFloats, Depth, ShortNumbers;
    var p := new PrintBuffer(buffer, true, fmt, true, floats, _ => false, 0);
    ok := p.PrintValue(v);
    if ok { assert [] + Render(floats, v, 0, fmt) == Render(floats, v, 0, fmt); }
  }

  /** A number that is a 32-bit integer has at most 11 bytes of text. */
  lemma {:induction false} IntegersAreShort(f: Floats, n: int)
    requires INT_MIN <= n <= INT_MAX
    ensures ShortNumbers(f, Number(Finite(n as real)))
  {
    var m: nat := if n < 0 then -n else n;
    DecimalSize(m, 10);
    assert IntOf(n as real) == n;
  }

  function Pow10(k: nat): nat {
    if k == 0 then 1 else 10 * Pow10(k - 1)
  }

  lemma {:induction false} DecimalSize(n: nat, k: nat)
    requires k >= 1 && n < Pow10(k)
    ensures |Decimal(n)| <= k
  {
    if n >= 10 { DecimalSize(n / 10, k - 1); }
  }

  lemma {:induction false} ObjectIs(f: Floats, ms: Members, d: nat, fmt: bool)
    ensures (if fmt then [0x7B, 0x0A] else [0x7B]) + RenderMembers(f, ms, d + 1, fmt) + ((if fmt then Tabs(d) else []) + [0x7D])
            == Render(f, Object(ms), d, fmt)
  {
    hide RenderMembers, Tabs;
  }

  /** The text of one member. */
  function MemberText(f: Floats, name: seq<byte>, v: Value, last: bool, d: nat, fmt: bool): seq<byte> {
    ((if fmt then Tabs(d) else []) + Quoted(name) + Colon(fmt)) + (Render(f, v, d, fmt) + MemberEnd(last, fmt))
  }

  lemma {:induction false} MembersStep(f: Floats, ms: Members, d: nat, fmt: bool, done: seq<byte>)
    requires ms.Member?
    ensures done + RenderMembers(f, ms, d, fmt)
            == done + MemberText(f, ms.name, ms.value, ms.next.NoMembers?, d, fmt) + RenderMembers(f, ms.next, d, fmt)
    ensures MembersDepth(ms) == Max(Depth(ms.value), MembersDepth(ms.next))
    ensures ShortMembers(f, ms) <==> ShortNumbers(f, ms.value) && ShortMembers(f, ms.next)
    ensures CStringMembers(ms) ==> NulFree(ms.name) && CStrings(ms.value) && CStringMembers(ms.next)
    ensures ms.value < ms && ms.next < ms
  {
    hide Render, Tabs, Quoted, Colon, MemberEnd;
  }

  lemma {:induction false} MembersStop(f: Floats, d: nat, fmt: bool, done: seq<byte>)
    ensures done + RenderMembers(f, NoMembers, d, fmt) == done
    ensures MembersDepth(NoMembers) == 0 && ShortMembers(f, NoMembers)
  {
  }

  lemma {:induction false} RenderNulFree(f: Floats, v: Value, d: nat, fmt: bool)
    requires CStrings(v) && CFloats(f)
    ensures NulFree(Render(f, v, d, fmt))
    decreases v
  {
    hide CFloats, NumberText, Escape, RenderItems, RenderMembers, CStringItems, CStringMembers;
    match v
    case Number(x) => TextNulFree(f, x);
    case Text(s) => EscapeNulFree(s);
    case Array(items) => ItemsNulFree(f, items, d + 1, fmt);
    case Object(ms) => MembersNulFree(f, ms, d + 1, fmt);
    case _ =>
  }

  lemma {:induction false} TextNulFree(f: Floats, x: Double)
    requires CFloats(f)
    ensures NulFree(NumberText(f, x))
  {
  }

  lemma {:induction false} ItemsNulFree(f: Floats, items: Items, d: nat, fmt: bool)
    requires CStringItems(items) && CFloats(f)
    ensures NulFree(RenderItems(f, items, d, fmt))
    decreases items
  {
    if items.Item? {
      RenderNulFree(f, items.value, d, fmt);
      ItemsNulFree(f, items.next, d, fmt);
    }
  }

  lemma {:induction false} MembersNulFree(f: Floats, ms: Members, d: nat, fmt: bool)
    requires CStringMembers(ms) && CFloats(f)
    ensures NulFree(RenderMembers(f, ms, d, fmt))
    decreases ms
  {
    hide Render, Escape;
    if ms.Member? {
      EscapeNulFree(ms.name);
      RenderNulFree(f, ms.value, d, fmt);
      MembersNulFree(f, ms.next, d, fmt);
    }
  }

  lemma {:induction false} EscapeNulFree(s: seq<byte>)
    requires NulFree(s)
    ensures NulFree(Escape(s)) && NulFree(Quoted(s))
  {
    if s != [] { EscapeNulFree(s[1..]); }
  }

  lemma {:induction false} ItemsStop(f: Floats, d: nat, fmt: bool, done: seq<byte>)
    ensures done + RenderItems(f, NoItems, d, fmt) == done
    ensures ItemsDepth(NoItems) == 0 && ShortItems(f, NoItems)
  {
  }

  lemma {:induction false} ItemsStep(f: Floats, items: Items, d: nat, fmt: bool, done: seq<byte>)
    requires items.Item?
    ensures done + RenderItems(f, items, d, fmt)
            == done + (Render(f, items.value, d, fmt) + (if items.next.NoItems? then [] else Comma(fmt))) + RenderItems(f, items.next, d, fmt)
    ensures ItemsDepth(items) == Max(Depth(items.value), ItemsDepth(items.next))
    ensures ShortItems(f, items) <==> ShortNumbers(f, items.value) && ShortItems(f, items.next)
    ensures CStringItems(items) ==> CStrings(items.value) && CStringItems(items.next)
    ensures items.value < items && items.next < items
  {
    hide Render;
  }

  /** The writing pass of print_string_ptr. */
  method WriteQuoted(output: array<byte>, o: nat, input: seq<byte>, outputLength: nat, ghost base: seq<byte>)
    requires outputLength == |Escape(input)| && o + outputLength + 3 <= output.Length && output[..o] == base
    modifies output
    ensures output[..o + |Quoted(input)|] == base + Quoted(input) && output[o + |Quoted(input)|] == 0
  {
    hide EscapeByte, Escape;
    output[o] := 0x22;
    var at := o + 1;
    ghost var done: seq<byte> := [];
    EscapeNone(input);
    for i := 0 to |input|
      invariant done == Escape(input[..i]) && at == o + 1 + |done| <= o + 1 + outputLength
      invariant output[..at] == base + [0x22] + done
    {
      EscapeMore(input, i);
      at := WriteEscaped(output, at, input[i], base + [0x22] + done);
      done := done + EscapeByte(input[i]);
    }
    assert input[..|input|] == input;
    output[o + outputLength + 1] := 0x22;
    output[o + outputLength + 2] := 0;
    assert output[..o + outputLength + 2] == base + [0x22] + done + [0x22];
  }

  lemma {:induction false} EscapeNone(input: seq<byte>)
    ensures Escape(input[..0]) == []
  {
  }

  /** One byte of the writing pass. */
  method WriteEscaped(output: array<byte>, at: nat, c: byte, ghost before: seq<byte>) returns (at': nat)
    requires at + |EscapeByte(c)| <= output.Length && output[..at] == before
    modifies output
    ensures at' == at + |EscapeByte(c)| && output[..at'] == before + EscapeByte(c)
  {
    if c > 31 && c != 0x22 && c != 0x5C {
      output[at] := c;
      return at + 1;
    }
    output[at] := 0x5C;
    var e := ShortEscape(c);
    if e != 0 {
      output[at + 1] := e;
      return at + 2;
    }
    output[at + 1], output[at + 2], output[at + 3] := 0x75, 0x30, 0x30;
    output[at + 4], output[at + 5] := Hex(c / 16), Hex(c % 16);
    return at + 6;
  }

  /** How many bytes escaping adds for c. */
  function Extra(c: byte): nat {
    if c == 0x22 || c == 0x5C || c == 0x08 || c == 0x0C || c == 0x0A || c == 0x0D || c == 0x09 then 1
    else if c < 32 then 5 else 0
  }

  /** The counting pass: exactly what the writing pass adds. */
  method CountEscapes(input: seq<byte>) returns (n: nat)
    ensures |input| + n == |Escape(input)|
  {
    n := 0;
    var i := 0;
    while i < |input|
      invariant 0 <= i <= |input| && i + n == |Escape(input[..i])|
    {
      EscapeMore(input, i);
      n := n + Extra(input[i]);
      i := i + 1;
    }
    assert input[..i] == input;
  }

  lemma {:induction false} EscapeAppend(a: seq<byte>, b: seq<byte>)
    ensures Escape(a + b) == Escape(a) + Escape(b)
  {
    if a == [] {
      assert a + b == b;
    } else {
      EscapeAppend(a[1..], b);
      assert (a + b)[1..] == a[1..] + b;
    }
  }

  lemma {:induction false} EscapeMore(s: seq<byte>, i: nat)
    requires i < |s|
    ensures Escape(s[..i + 1]) == Escape(s[..i]) + EscapeByte(s[i])
    ensures |Escape(s[..i + 1])| <= |Escape(s)|
    ensures |EscapeByte(s[i])| == 1 + Extra(s[i])
  {
    assert s[..i + 1] == s[..i] + [s[i]];
    EscapeAppend(s[..i], [s[i]]);
    EscapeAppend(s[..i + 1], s[i + 1..]);
    assert s == s[..i + 1] + s[i + 1..];
  }

  lemma {:induction false} NoEscapes(s: seq<byte>)
    requires |Escape(s)| == |s|
    ensures Escape(s) == s
  {
    if s != [] {
      EscapeLonger(s[1..]);
      NoEscapes(s[1..]);
    }
  }

  lemma {:induction false} QuotedLength(s: seq<byte>)
    ensures |Quoted(s)| == |Escape(s)| + 2
  {
  }

  lemma {:induction false} QuotedPlain(s: seq<byte>)
    requires |Escape(s)| == |s|
    ensures Quoted(s) == [0x22] + s + [0x22]
  {
    NoEscapes(s);
  }

  lemma {:induction false} EscapeLonger(s: seq<byte>)
    ensures |Escape(s)| >= |s|
  {
    if s != [] { EscapeLonger(s[1..]); }
  }

  /** memcpy. */
  method CopyBytes(to: array<byte>, from: array<byte>, n: nat)
    requires n <= to.Length && n <= from.Length && to != from
    modifies to
    ensures to[..n] == from[..n]
  {
    var i := 0;
    while i < n
      invariant 0 <= i <= n && to[..i] == from[..i]
    {
      to[i] := from[i];
      i := i + 1;
    }
  }
}
