/**
 The text forms of section 2.2 of RFC 4291, and that inet_pton6 accepts exactly
 these, each as its address.
 */
module InetForms {
  import opened Bytes
  import opened InetText
  import opened InetRoundTrip
  import InetLetters

  // ---------- the forms ----------

  /** One to four hexadecimal digits. */
  predicate IsGroup(g: seq<byte>) {
    1 <= |g| <= 4 && forall i :: 0 <= i < |g| ==> XDigitOf(g[i]).Some?
  }

  function GroupValue(g: seq<byte>): (v: nat)
    requires |g| <= 4 && forall i :: 0 <= i < |g| ==> XDigitOf(g[i]).Some?
    ensures v < Pow16(|g|)
  {
    if g == [] then 0 else GroupValue(g[..|g| - 1]) * 16 + XDigitOf(g[|g| - 1]).value
  }

  predicate AllGroups(gs: seq<seq<byte>>) { forall i :: 0 <= i < |gs| ==> IsGroup(gs[i]) }

  /** The groups before "::" or all of them, those behind it, and the octets of an IPv4
      address at the end, if there is one. */
  datatype Form = Form(head: seq<seq<byte>>, gap: bool, tail: seq<seq<byte>>, quad: seq<byte>)

  /** Each group with a colon behind it. */
  function Colons(gs: seq<seq<byte>>): seq<byte> {
    if gs == [] then [] else gs[0] + ([COLON] + Colons(gs[1..]))
  }

  /** The end of a text: groups with colons between them, the last of them, or none, in
      front of the IPv4 address. */
  function EndText(gs: seq<seq<byte>>, quad: seq<byte>): seq<byte>
    requires quad == [] || |quad| == 4
  {
    if gs == [] then (if quad == [] then [] else Text4(quad))
    else if |gs| == 1 && quad == [] then gs[0]
    else gs[0] + ([COLON] + EndText(gs[1..], quad))
  }

  predicate FormOk(f: Form) {
    && AllGroups(f.head) && AllGroups(f.tail) && (f.quad == [] || |f.quad| == 4)
    && (if f.gap then 2 * |f.head| + 2 * |f.tail| + |f.quad| <= 14
        else f.tail == [] && 2 * |f.head| + |f.quad| == 16)
  }

  function FormText(f: Form): seq<byte>
    requires FormOk(f)
  {
    if f.gap then (if f.head == [] then [COLON] else []) + (Colons(f.head) + ([COLON] + EndText(f.tail, f.quad)))
    else EndText(f.head, f.quad)
  }

  function GroupBytes(gs: seq<seq<byte>>): (b: seq<byte>)
    requires AllGroups(gs)
    ensures |b| == 2 * |gs|
  {
    if gs == [] then [] else [GroupValue(gs[0]) / 256, GroupValue(gs[0]) % 256] + GroupBytes(gs[1..])
  }

  /** The words of the groups, zeros where "::" stands, and the octets. */
  function Address(f: Form): (a: seq<byte>)
    requires FormOk(f)
    ensures |a| == 16
  {
    GroupBytes(f.head)
    + (if f.gap then Zeros(16 - 2 * |f.head| - 2 * |f.tail| - |f.quad|) else [])
    + (GroupBytes(f.tail) + f.quad)
  }

  // ---------- reading a group ----------

  /** The reader at the start of a token. */
  predicate AtStart(st: Reader, s: seq<byte>) { st.seen == 0 && st.val == 0 && st.token == s }

  lemma {:induction false} ReadDigits(g: seq<byte>, k: nat, rest: seq<byte>, st: Reader)
    requires k <= |g| <= 4 && (forall i :: 0 <= i < |g| ==> XDigitOf(g[i]).Some?)
    requires st.seen == k && st.val == GroupValue(g[..k])
    ensures Fits(st) && GroupValue(g) < Pow16(|g|)
    ensures Read6(g[k..] + rest, st) == Read6(rest, st.(seen := |g|, val := GroupValue(g)))
    decreases |g| - k
  {
    hide Read6, XDigitOf;
    if k == |g| {
      assert g[..k] == g && g[k..] + rest == rest;
    } else {
      var s := g[k..] + rest;
      DropOne(g, k, rest);
      Read6One(s, st);
      ReadDigits(g, k + 1, rest, st.(seen := k + 1, val := GroupValue(g[..k + 1])));
    }
  }

  lemma {:induction false} DropOne(g: seq<byte>, k: nat, rest: seq<byte>)
    requires k < |g|
    ensures var s := g[k..] + rest; s != [] && s[0] == g[k] && s[1..] == g[k + 1..] + rest
    ensures g[..k + 1] != [] && g[..k + 1][k] == g[k] && g[..k + 1][..k] == g[..k]
  {
  }

  lemma {:induction false} ReadGroup(g: seq<byte>, rest: seq<byte>, st: Reader)
    requires IsGroup(g) && st.seen == 0 && st.val == 0
    ensures Fits(st) && Fits(st.(seen := |g|, val := GroupValue(g)))
    ensures Read6(g + rest, st) == Read6(rest, st.(seen := |g|, val := GroupValue(g)))
  {
    hide Read6;
    assert g[..0] == [] && g[0..] == g;
    ReadDigits(g, 0, rest, st);
  }

  lemma {:induction false} PastColon(s: seq<byte>)
    ensures ([COLON] + s)[0] == COLON && ([COLON] + s)[1..] == s && XDigitOf(COLON).None?
  {
  }

  /** A group and the colon behind it, which is not the last byte. */
  lemma {:induction false} ReadGroupColon(g: seq<byte>, rest: seq<byte>, st: Reader)
    requires IsGroup(g) && st.seen == 0 && st.val == 0 && rest != [] && |st.bytes| + 2 <= 16
    ensures Fits(st)
    ensures var next := Reader(st.bytes + [GroupValue(g) / 256, GroupValue(g) % 256], st.colon, 0, 0, rest);
            Read6(g + ([COLON] + rest), st) == Read6(rest, next)
  {
    hide Read6, XDigitOf;
    ReadGroup(g, [COLON] + rest, st);
    PastColon(rest);
    Read6One([COLON] + rest, st.(seen := |g|, val := GroupValue(g)));
  }

  // ---------- every form is read ----------

  /** What the reader has in hand when it stops. */
  function Gathered(st: Reader): seq<byte>
    requires st.val < 0x10000
  {
    if st.seen > 0 then Store(st).bytes else st.bytes
  }

  lemma {:induction false} GroupsOne(gs: seq<seq<byte>>)
    requires AllGroups(gs) && gs != []
    ensures IsGroup(gs[0]) && AllGroups(gs[1..])
    ensures GroupBytes(gs) == [GroupValue(gs[0]) / 256, GroupValue(gs[0]) % 256] + GroupBytes(gs[1..])
  {
  }

  lemma {:induction false} EndRead(gs: seq<seq<byte>>, quad: seq<byte>, st: Reader)
    requires AllGroups(gs) && (quad == [] || |quad| == 4) && AtStart(st, EndText(gs, quad))
    requires |st.bytes| + 2 * |gs| + |quad| <= 16
    ensures Fits(st)
    ensures var r := Read6(EndText(gs, quad), st);
            && r.Some? && r.value.colon == st.colon
            && Gathered(r.value) == st.bytes + (GroupBytes(gs) + quad)
            && (r.value.seen > 0 ==> |r.value.bytes| + 2 <= 16)
    decreases |gs|
  {
    hide Read6, Read4, IsGroup, GroupBytes, Text4, GroupValue;
    if gs == [] {
      NoGroups();
      if quad == [] {
        Read6None(st);
        assert st.bytes + ([] + []) == st.bytes;
      } else {
        ReadEmbedded(quad, st);
        assert [] + quad == quad;
      }
    } else {
      GroupsOne(gs);
      if |gs| == 1 && quad == [] {
        assert gs[0] + [] == gs[0] && gs[1..] == [];
        ReadGroup(gs[0], [], st);
        Read6None(st.(seen := |gs[0]|, val := GroupValue(gs[0])));
        LastGroup(gs[0]);
        NoGroups();
        assert GroupBytes(gs) + [] == [GroupValue(gs[0]) / 256, GroupValue(gs[0]) % 256];
      } else {
        var rest := EndText(gs[1..], quad);
        EndNotEmpty(gs[1..], quad);
        ReadGroupColon(gs[0], rest, st);
        var w := [GroupValue(gs[0]) / 256, GroupValue(gs[0]) % 256];
        EndRead(gs[1..], quad, Reader(st.bytes + w, st.colon, 0, 0, rest));
        assert st.bytes + w + (GroupBytes(gs[1..]) + quad) == st.bytes + (w + GroupBytes(gs[1..]) + quad);
      }
    }
  }

  lemma {:induction false} NoGroups()
    ensures GroupBytes([]) == []
  {
  }

  lemma {:induction false} LastGroup(g: seq<byte>)
    requires IsGroup(g)
    ensures |g| > 0 && GroupValue(g) < 0x10000
  {
  }

  lemma {:induction false} EndNotEmpty(gs: seq<seq<byte>>, quad: seq<byte>)
    requires AllGroups(gs) && (quad == [] || |quad| == 4) && (gs != [] || quad != [])
    ensures EndText(gs, quad) != []
  {
    if gs != [] { assert IsGroup(gs[0]); }
  }

  /** The groups in front of "::". */
  lemma {:induction false} HeadRead(gs: seq<seq<byte>>, end: seq<byte>, st: Reader)
    requires AllGroups(gs) && st.seen == 0 && st.val == 0 && st.colon.None? && |st.bytes| + 2 * |gs| <= 16
    ensures Fits(st)
    ensures var bytes := st.bytes + GroupBytes(gs);
            Read6(Colons(gs) + ([COLON] + end), st) == Read6(end, Reader(bytes, Some(|bytes|), 0, 0, end))
    decreases |gs|
  {
    hide Read6, IsGroup, GroupBytes, GroupValue, XDigitOf;
    if gs == [] {
      NoGroups();
      assert [] + ([COLON] + end) == [COLON] + end && st.bytes + [] == st.bytes;
      PastColon(end);
      Read6One([COLON] + end, st);
    } else {
      GroupsOne(gs);
      var rest := Colons(gs[1..]) + ([COLON] + end);
      var w := [GroupValue(gs[0]) / 256, GroupValue(gs[0]) % 256];
      assert Colons(gs) + ([COLON] + end) == gs[0] + ([COLON] + rest);
      ReadGroupColon(gs[0], rest, st);
      HeadRead(gs[1..], end, Reader(st.bytes + w, st.colon, 0, 0, rest));
      assert st.bytes + w + GroupBytes(gs[1..]) == st.bytes + (w + GroupBytes(gs[1..]));
    }
  }

  lemma {:induction false} FirstOfGroup(g: seq<byte>, s: seq<byte>)
    requires IsGroup(g)
    ensures (g + s) != [] && (g + s)[0] != COLON
  {
  }

  /** inet_pton6 reads every form as its address. */
  lemma {:induction false} FormRead(f: Form)
    requires FormOk(f)
    ensures Parse6(FormText(f)) == Some(Address(f))
  {
    hide Read6, IsGroup, GroupBytes, EndText, Colons;
    var s := FormText(f);
    var end := EndText(if f.gap then f.tail else f.head, f.quad);
    if f.gap {
      var t := Colons(f.head) + ([COLON] + end);
      if f.head == [] {
        NoColons();
        assert t == [COLON] + end && s == [COLON] + t && s[1..] == t && s[1] == COLON;
      } else {
        GroupsOne(f.head);
        ColonsFirst(f.head, [COLON] + end);
        assert s == [] + t == t;
      }
      HeadRead(f.head, end, Reader([], None, 0, 0, t));
      assert [] + GroupBytes(f.head) == GroupBytes(f.head);
      EndRead(f.tail, f.quad, Reader(GroupBytes(f.head), Some(2 * |f.head|), 0, 0, end));
      FinishGapped(f, Read6(end, Reader(GroupBytes(f.head), Some(2 * |f.head|), 0, 0, end)).value);
    } else {
      GroupsOne(f.head);
      EndFirst(f.head, f.quad);
      EndRead(f.head, f.quad, Reader([], None, 0, 0, end));
      NoGroups();
      assert [] + (GroupBytes(f.head) + f.quad) == GroupBytes(f.head) + [] + ([] + f.quad);
    }
  }

  lemma {:induction false} NoColons()
    ensures Colons([]) == []
  {
  }

  lemma {:induction false} ColonsFirst(gs: seq<seq<byte>>, s: seq<byte>)
    requires gs != [] && IsGroup(gs[0])
    ensures (Colons(gs) + s) != [] && (Colons(gs) + s)[0] != COLON
  {
  }

  lemma {:induction false} EndFirst(gs: seq<seq<byte>>, quad: seq<byte>)
    requires gs != [] && IsGroup(gs[0]) && (quad == [] || |quad| == 4)
    ensures EndText(gs, quad) != [] && EndText(gs, quad)[0] != COLON
  {
  }

  lemma {:induction false} FinishGapped(f: Form, st: Reader)
    requires FormOk(f) && f.gap && st.val < 0x10000 && st.colon == Some(2 * |f.head|)
    requires Gathered(st) == GroupBytes(f.head) + (GroupBytes(f.tail) + f.quad)
    requires st.seen > 0 ==> |st.bytes| + 2 <= 16
    ensures Finish(st) == Some(Address(f))
  {
    hide GroupBytes, IsGroup;
    var t := Gathered(st);
    assert t[..2 * |f.head|] == GroupBytes(f.head) && t[2 * |f.head|..] == GroupBytes(f.tail) + f.quad;
  }

  // ---------- everything that is read is a form ----------

  function HexRun(s: seq<byte>): (n: nat)
    ensures n <= |s| && forall i :: 0 <= i < n ==> XDigitOf(s[i]).Some?
    ensures n < |s| ==> XDigitOf(s[n]).None?
  {
    if s != [] && XDigitOf(s[0]).Some? then
      assert forall i :: 1 <= i < 1 + HexRun(s[1..]) ==> s[i] == s[1..][i - 1];
      1 + HexRun(s[1..])
    else 0
  }

  /** More than four digits are refused. */
  lemma {:induction false} TooManyDigits(s: seq<byte>, st: Reader)
    requires Fits(st) && st.seen + HexRun(s) > 4
    ensures Read6(s, st) == None
    decreases |s|
  {
    hide Read6;
    Read6One(s, st);
    if st.seen < 4 {
      TooManyDigits(s[1..], st.(seen := st.seen + 1, val := st.val * 16 + XDigitOf(s[0]).value));
    }
  }

  lemma {:induction false} Text4First(q: seq<byte>)
    requires |q| == 4
    ensures Text4(q) != [] && 0x30 <= Text4(q)[0] <= 0x39
  {
    DecimalFirst(q[0]);
    hide Decimal;
  }

  lemma {:induction false} DecimalFirst(n: nat)
    ensures 0x30 <= Decimal(n)[0] <= 0x39
  {
    if n >= 10 { DecimalFirst(n / 10); }
  }

  /** What the reader has taken from the start of a token on: groups to the end, with an
      IPv4 address or not, or groups, "::" and such an end. */
  ghost predicate Took(s: seq<byte>, st: Reader, r: Reader, gs: seq<seq<byte>>, gap: bool, tail: seq<seq<byte>>, quad: seq<byte>) {
    && AllGroups(gs) && AllGroups(tail) && (quad == [] || |quad| == 4) && r.val < 0x10000
    && (if gap then st.colon.None? && r.colon == Some(|st.bytes| + 2 * |gs|) && s == Colons(gs) + ([COLON] + EndText(tail, quad))
        else tail == [] && r.colon == st.colon && s == EndText(gs, quad))
    && Gathered(r) == st.bytes + (GroupBytes(gs) + (GroupBytes(tail) + quad))
  }

  lemma {:induction false} Found(s: seq<byte>, st: Reader)
      returns (gs: seq<seq<byte>>, gap: bool, tail: seq<seq<byte>>, quad: seq<byte>)
    requires AtStart(st, s) && Fits(st) && Read6(s, st).Some?
    ensures Took(s, st, Read6(s, st).value, gs, gap, tail, quad)
    decreases |s|
  {
    hide Read6, Took, Read4, XDigitOf, HexRun, EndText, Colons, Text4;
    gs, gap, tail, quad := [], false, [], [];
    if s == [] {
      Read6None(st);
      TookNothing(st);
    } else if s[0] == COLON {
      PastColon([]);
      Read6One(s, st);
      var next := st.(colon := Some(|st.bytes|), token := s[1..]);
      gs, gap, tail, quad := Found(s[1..], next);
      TookGap(s, st, next, Read6(s, st).value, gs, gap, tail, quad);
      gs, gap, tail := [], true, gs;
    } else if HexRun(s) == 0 {
      NoHex(s);
      Read6One(s, st);
      var q := Read4(s, [], None).value;
      OctetsFound(s, q);
      Text4First(q);
      assert false;
    } else {
      gs, gap, tail, quad := FoundGroup(s, st);
    }
  }

  lemma {:induction false} NoHex(s: seq<byte>)
    requires s != [] && HexRun(s) == 0
    ensures XDigitOf(s[0]).None?
  {
  }

  /** A text that inet_pton4 accepts. */
  lemma {:induction false} OctetsFound(s: seq<byte>, q: seq<byte>)
    requires Read4(s, [], None) == Some(q)
    ensures |q| == 4 && s == Text4(q)
  {
    hide Read4;
    InetLetters.ReadIsWritten(s, [], None, q);
    InetLetters.Pton4Exact(s, q);
  }

  lemma {:induction false} TookNothing(st: Reader)
    requires AtStart(st, [])
    ensures Took([], st, st, [], false, [], [])
  {
    assert st.bytes + ([] + ([] + [])) == st.bytes;
  }

  lemma {:induction false} TookGap(s: seq<byte>, st: Reader, next: Reader, r: Reader, gs: seq<seq<byte>>, gap: bool,
                                   tail: seq<seq<byte>>, quad: seq<byte>)
    requires s != [] && s[0] == COLON && st.colon.None? && next == st.(colon := Some(|st.bytes|), token := s[1..])
    requires Took(s[1..], next, r, gs, gap, tail, quad)
    ensures Took(s, st, r, [], true, gs, quad)
  {
    hide IsGroup, EndText, GroupBytes;
    NoGroups();
    assert s == [] + ([COLON] + s[1..]);
    assert GroupBytes(gs) + ([] + quad) == [] + (GroupBytes(gs) + quad);
  }

  lemma {:induction false} FoundGroup(s: seq<byte>, st: Reader)
      returns (gs: seq<seq<byte>>, gap: bool, tail: seq<seq<byte>>, quad: seq<byte>)
    requires AtStart(st, s) && Fits(st) && Read6(s, st).Some? && HexRun(s) > 0
    ensures Took(s, st, Read6(s, st).value, gs, gap, tail, quad)
    decreases |s|, 0
  {
    hide Read6, Took, Read4, XDigitOf, HexRun, EndText, Colons, Text4, GroupBytes, GroupValue;
    if HexRun(s) > 4 { TooManyDigits(s, st); }
    var g, rest := s[..HexRun(s)], s[HexRun(s)..];
    GroupFits(s);
    ReadGroup(g, rest, st);
    assert s == g + rest;
    var st1 := st.(seen := |g|, val := GroupValue(g));
    gs, gap, tail, quad := [], false, [], [];
    if rest == [] {
      Read6None(st1);
      TookLast(s, st, g);
      gs := [g];
    } else {
      Read6One(rest, st1);
      if rest[0] == COLON {
        var w := [GroupValue(g) / 256, GroupValue(g) % 256];
        var next := Reader(st.bytes + w, st.colon, 0, 0, rest[1..]);
        gs, gap, tail, quad := Found(rest[1..], next);
        TookMore(s, st, next, Read6(s, st).value, g, gs, gap, tail, quad);
        gs := [g] + gs;
      } else {
        var q := Read4(s, [], None).value;
        OctetsFound(s, q);
        TookQuad(s, st, Read6(s, st).value, q);
        quad := q;
      }
    }
  }

  lemma {:induction false} GroupFits(s: seq<byte>)
    requires 0 < HexRun(s) <= 4
    ensures IsGroup(s[..HexRun(s)]) && (HexRun(s) < |s| ==> XDigitOf(s[HexRun(s)..][0]).None?)
  {
  }

  lemma {:induction false} TookLast(s: seq<byte>, st: Reader, g: seq<byte>)
    requires IsGroup(g) && s == g + [] && st.seen == 0
    ensures GroupValue(g) < 0x10000
    ensures Took(s, st, st.(seen := |g|, val := GroupValue(g)), [g], false, [], [])
  {
    LastGroup(g);
    assert [g][1..] == [];
    NoGroups();
    var w := [GroupValue(g) / 256, GroupValue(g) % 256];
    assert GroupBytes([g]) == w + [];
    assert st.bytes + (w + [] + ([] + [])) == st.bytes + w;
  }

  lemma {:induction false} TookMore(s: seq<byte>, st: Reader, next: Reader, r: Reader, g: seq<byte>, gs: seq<seq<byte>>,
                                    gap: bool, tail: seq<seq<byte>>, quad: seq<byte>)
    requires IsGroup(g) && |s| > |g| + 1 && s == g + ([COLON] + s[|g| + 1..])
    requires next == Reader(st.bytes + [GroupValue(g) / 256, GroupValue(g) % 256], st.colon, 0, 0, s[|g| + 1..])
    requires Took(s[|g| + 1..], next, r, gs, gap, tail, quad)
    ensures Took(s, st, r, [g] + gs, gap, tail, quad)
  {
    hide GroupValue, XDigitOf, IsGroup, GroupBytes, EndText, Colons;
    var all := [g] + gs;
    assert all[1..] == gs && all[0] == g;
    LastGroup(g);
    GroupsOne(all);
    var w := [GroupValue(g) / 256, GroupValue(g) % 256];
    BytesMore(st.bytes, w, GroupBytes(gs), GroupBytes(tail) + quad);
    OneMore(g, gs, [COLON] + EndText(tail, quad), quad);
  }

  lemma {:induction false} BytesMore(a: seq<byte>, w: seq<byte>, b: seq<byte>, c: seq<byte>)
    ensures a + w + (b + c) == a + (w + b + c)
  {
  }

  /** One more group in front. */
  lemma {:induction false} OneMore(g: seq<byte>, gs: seq<seq<byte>>, e: seq<byte>, quad: seq<byte>)
    requires quad == [] || |quad| == 4
    ensures var all := [g] + gs;
            && Colons(all) + e == g + ([COLON] + (Colons(gs) + e))
            && (gs != [] || quad != [] ==> EndText(all, quad) == g + ([COLON] + EndText(gs, quad)))
            && (gs == [] && quad == [] ==> EndText(gs, quad) == [])
  {
    var all := [g] + gs;
    assert all[1..] == gs && all[0] == g;
    assert g + ([COLON] + (Colons(gs) + e)) == g + ([COLON] + Colons(gs)) + e;
  }

  lemma {:induction false} TookQuad(s: seq<byte>, st: Reader, r: Reader, q: seq<byte>)
    requires |q| == 4 && s == Text4(q) && r.seen == 0 && r.val < 0x10000 && r.bytes == st.bytes + q && r.colon == st.colon
    ensures Took(s, st, r, [], false, [], q)
  {
    NoGroups();
    assert [] + ([] + q) == q;
  }

  /** What inet_pton6 accepts is one of the forms. */
  lemma {:induction false} FormFound(s: seq<byte>) returns (f: Form)
    requires Parse6(s).Some?
    ensures FormOk(f) && s == FormText(f) && Parse6(s) == Some(Address(f))
  {
    hide Read6, Took, FormText, Address;
    var t := if s != [] && s[0] == COLON then s[1..] else s;
    var st := Reader([], None, 0, 0, t);
    var gs, gap, tail, quad := Found(t, st);
    f := Form(gs, gap, tail, quad);
    FinishFound(t, Read6(t, st).value, f);
    if s[0] == COLON { GapAtFirst(t, f); }
    FormIs(s, t, f);
    FormRead(f);
  }

  lemma {:induction false} FinishFound(t: seq<byte>, r: Reader, f: Form)
    requires r.val < 0x10000 && Finish(r).Some? && Took(t, Reader([], None, 0, 0, t), r, f.head, f.gap, f.tail, f.quad)
    ensures FormOk(f)
    ensures t == if f.gap then Colons(f.head) + ([COLON] + EndText(f.tail, f.quad)) else EndText(f.head, f.quad)
  {
    hide IsGroup, EndText, Colons, GroupBytes, GroupValue, Zeros;
    assert |Gathered(r)| == 2 * |f.head| + 2 * |f.tail| + |f.quad|;
  }

  /** A text that starts with a colon starts with two. */
  lemma {:induction false} GapAtFirst(t: seq<byte>, f: Form)
    requires FormOk(f) && t != [] && t[0] == COLON
    requires t == if f.gap then Colons(f.head) + ([COLON] + EndText(f.tail, f.quad)) else EndText(f.head, f.quad)
    ensures f.gap && f.head == []
  {
    hide IsGroup, EndText, Colons;
    if f.head != [] {
      GroupsOne(f.head);
      ColonsFirst(f.head, [COLON] + EndText(f.tail, f.quad));
      EndFirst(f.head, f.quad);
    }
  }

  lemma {:induction false} FormIs(s: seq<byte>, t: seq<byte>, f: Form)
    requires FormOk(f) && s != [] && t == (if s[0] == COLON then s[1..] else s)
    requires t == if f.gap then Colons(f.head) + ([COLON] + EndText(f.tail, f.quad)) else EndText(f.head, f.quad)
    requires s[0] == COLON ==> f.gap && f.head == []
    ensures s == FormText(f)
  {
    hide IsGroup, EndText, Colons;
    NoColons();
    if f.gap && f.head == [] {
      assert [] + ([COLON] + EndText(f.tail, f.quad)) == [COLON] + EndText(f.tail, f.quad);
      assert t[0] == COLON;
    }
    if s[0] == COLON { assert s == [COLON] + s[1..]; } else { assert [] + t == t; }
  }

  /** inet_pton6 accepts exactly the forms, each as its address. */
  lemma {:induction false} Pton6Exact(s: seq<byte>, a: seq<byte>)
    ensures Parse6(s) == Some(a) <==> exists f :: FormOk(f) && s == FormText(f) && a == Address(f)
  {
    hide Parse6, FormOk, FormText, Address;
    if Parse6(s) == Some(a) {
      var f := FormFound(s);
      assert FormOk(f) && s == FormText(f) && a == Address(f);
    }
    if f :| FormOk(f) && s == FormText(f) && a == Address(f) { FormRead(f); }
  }
}
