/** inet_ntop4, inet_ntop6, inet_pton4 and inet_pton6 of inet.c, step by step. */
module Inet {
  import opened Bytes
  import opened InetText

  const INET6_ADDRSTRLEN: nat := 46

  // ---------- the size of the text ----------

  lemma {:induction false} HexSize(n: nat)
    requires n < 0x10000
    ensures |HexText(n)| <= 4
  {
    if n >= 16 { HexSizeBelow(n / 16, 3); }
  }

  lemma {:induction false} HexSizeBelow(n: nat, k: nat)
    requires 1 <= k <= 3 && n < Pow16(k)
    ensures |HexText(n)| <= k
  {
    if n >= 16 { HexSizeBelow(n / 16, k - 1); }
  }

  lemma {:induction false} DecimalSize(n: nat)
    requires n < 1000
    ensures |Decimal(n)| <= 3
  {
    if n >= 100 { assert |Decimal(n / 10 / 10)| == 1; }
  }

  lemma {:induction false} Text4Size(a: seq<byte>)
    requires |a| == 4
    ensures |Text4(a)| <= 15
  {
    DecimalSize(a[0]);
    DecimalSize(a[1]);
    DecimalSize(a[2]);
    DecimalSize(a[3]);
  }

  lemma {:induction false} TextSize(w: seq<nat>, r: Run, tail: seq<byte>, i: nat)
    requires |w| == 8 && i <= 8 && r.base + r.len <= 8 && |tail| <= 15 && forall k :: 0 <= k < 8 ==> w[k] < 0x10000
    ensures |TextFrom(w, r, tail, i)| <= 5 * (8 - i) + 6
    ensures i == 0 ==> |TextFrom(w, r, tail, i)| < INET6_ADDRSTRLEN
    decreases 8 - i
  {
    hide HexText;
    if i < 8 {
      TextSize(w, r, tail, i + 1);
      HexSize(w[i]);
    }
  }

  /** The text of every address, with its terminator, fits the 46-byte buffer. */
  lemma {:induction false} Text6Fits(a: seq<byte>, r: Run)
    requires |a| == 16 && r.base + r.len <= 8
    ensures |Text6(a, r)| + 1 <= INET6_ADDRSTRLEN
  {
    Text4Size(a[12..]);
    TextSize(WordsOf(a), r, Text4(a[12..]), 0);
  }

  // ---------- writing ----------

  /** Writes text behind the first tp bytes. */
  method PutText(tmp: array<byte>, tp: nat, text: seq<byte>) returns (tp': nat)
    requires tp + |text| <= tmp.Length
    modifies tmp
    ensures tp' == tp + |text| && tmp[..tp'] == old(tmp[..tp]) + text
  {
    for i := 0 to |text|
      invariant tmp[..tp + i] == old(tmp[..tp]) + text[..i]
    {
      tmp[tp + i] := text[i];
    }
    assert text[..|text|] == text;
    tp' := tp + |text|;
  }

  /** inet_ntop4 into size bytes of dst. */
  method Ntop4(src: seq<byte>, dst: array<byte>, at: nat, size: nat) returns (rc: int)
    requires |src| == 4 && at + size <= dst.Length
    modifies dst
    ensures rc == if |Text4(src)| >= size then UV_ENOSPC else 0
    ensures rc == 0 ==> dst[..at + |Text4(src)|] == old(dst[..at]) + Text4(src) && dst[at + |Text4(src)|] == 0
  {
    var text := Text4(src);
    if |text| == 0 || |text| >= size { return UV_ENOSPC; }
    var end := PutText(dst, at, text);
    dst[end] := 0;
    rc := 0;
  }

  /** The run of zero words that ends at i, as the scan knows it: base -1 for none. */
  predicate CurOk(w: seq<nat>, i: nat, base: int, len: int)
    requires |w| == 8 && i <= 8
  {
    if base == -1 then i == 0 || w[i - 1] != 0
    else 0 <= base < i && len == i - base && (base == 0 || w[base - 1] != 0) && forall k :: base <= k < i ==> w[k] == 0
  }

  /** The leftmost longest run of zeros in the first n words; base -1 for none. */
  ghost predicate BestOk(w: seq<nat>, n: nat, base: int, len: int)
    requires |w| == 8 && n <= 8
  {
    && (base != -1 ==> 0 <= base && len >= 1 && base + len <= n && IsRun(w, Run(base, len)))
    && forall b: nat, m: nat :: m >= 1 && b + m <= n && IsRun(w, Run(b, m)) ==> base != -1 && (m < len || (m == len && base <= b))
  }

  /** The end of a run: it is compared with the best one before it. */
  lemma {:induction false} RunEnds(w: seq<nat>, i: nat, base: int, len: int, curBase: int, curLen: int)
    requires |w| == 8 && i <= 8 && curBase != -1 && CurOk(w, i, curBase, curLen) && BestOk(w, curBase, base, len)
    ensures if base == -1 || curLen > len then BestOk(w, i, curBase, curLen) else BestOk(w, i, base, len)
  {
    forall b: nat, m: nat | m >= 1 && b + m <= i && IsRun(w, Run(b, m))
      ensures b + m <= curBase || (m <= curLen && b >= curBase && (m == curLen ==> b == curBase))
    {
      assert forall k :: b <= k < b + m ==> w[k] == 0;
      assert curBase > 0 ==> w[curBase - 1] != 0;
    }
    assert IsRun(w, Run(curBase, curLen));
  }

  /** A nonzero word adds no run. */
  lemma {:induction false} NoRunAt(w: seq<nat>, i: nat, base: int, len: int)
    requires |w| == 8 && i < 8 && w[i] != 0 && BestOk(w, i, base, len)
    ensures BestOk(w, i + 1, base, len)
  {
    forall b: nat, m: nat | m >= 1 && b + m <= i + 1 && IsRun(w, Run(b, m)) ensures b + m <= i {
      assert forall k :: b <= k < b + m ==> w[k] == 0;
    }
  }

  /** The scan of inet_ntop6 for the run that "::" replaces. */
  method FindRun(words: array<nat>) returns (best: Run)
    requires words.Length == 8
    ensures IsBest(words[..], best)
  {
    ghost var w := words[..];
    var bestBase, bestLen, curBase, curLen := -1, 0, -1, 0;
    for i := 0 to 8
      invariant CurOk(w, i, curBase, curLen)
      invariant BestOk(w, if curBase == -1 then i else curBase, bestBase, bestLen)
    {
      if words[i] == 0 {
        if curBase == -1 { curBase, curLen := i, 1; } else { curLen := curLen + 1; }
      } else {
        if curBase != -1 {
          RunEnds(w, i, bestBase, bestLen, curBase, curLen);
          if bestBase == -1 || curLen > bestLen { bestBase, bestLen := curBase, curLen; }
          curBase := -1;
        }
        NoRunAt(w, i, bestBase, bestLen);
      }
    }
    if curBase != -1 {
      RunEnds(w, 8, bestBase, bestLen, curBase, curLen);
      if bestBase == -1 || curLen > bestLen { bestBase, bestLen := curBase, curLen; }
    }
    assert BestOk(w, 8, bestBase, bestLen);
    if bestBase != -1 && bestLen < 2 { bestBase := -1; }
    best := if bestBase == -1 then Run(0, 0) else Run(bestBase, bestLen);
  }

  /** Word k when the first i bytes are in. */
  function WordSoFar(src: seq<byte>, k: nat, i: nat): nat
    requires |src| == 16 && k < 8
  {
    if 2 * k + 1 < i then Word(src[2 * k], src[2 * k + 1]) else if 2 * k < i then Word(src[2 * k], 0) else 0
  }

  /** The bytes of an address as words. */
  method CopyWords(src: seq<byte>) returns (words: array<nat>)
    requires |src| == 16
    ensures fresh(words) && words[..] == WordsOf(src)
  {
    words := new nat[8](_ => 0);
    for i := 0 to 16
      invariant words.Length == 8
      invariant forall k :: 0 <= k < 8 ==> words[k] == WordSoFar(src, k, i)
    {
      // the high byte of a word comes first; the low bits it leaves are zero
      var b: nat := src[i];
      words[i / 2] := words[i / 2] + if i % 2 == 0 then b * 256 else b;
    }
  }

  /** inet_ntop6 into size bytes of dst: the text with the leftmost longest run of
      at least two zero words shortened. */
  method Ntop6(src: seq<byte>, dst: array<byte>, size: nat) returns (rc: int, ghost best: Run)
    requires |src| == 16 && size <= dst.Length
    modifies dst
    ensures IsBest(WordsOf(src), best)
    ensures rc == if |Text6(src, best)| + 1 > size then UV_ENOSPC else 0
    ensures rc == 0 ==> dst[..|Text6(src, best)|] == Text6(src, best) && dst[|Text6(src, best)|] == 0
    ensures rc != 0 ==> dst[..] == old(dst[..])
  {
    hide TextFrom, Text4, HexText;
    var words := CopyWords(src);
    var run := FindRun(words);
    best := run;
    Text6Fits(src, run);
    var tmp, tp := FormatWords(src, words, run);
    ghost var text := Text6(src, run);
    tmp[tp] := 0;
    tp := tp + 1;
    if tp > size { return UV_ENOSPC, best; }
    rc := 0;
    var end := PutText(dst, 0, tmp[..tp - 1]);
    dst[end] := 0;
  }

  /** What a turn of the formatting loop outside the run writes. */
  function WordText(src: seq<byte>, r: Run, i: nat): seq<byte>
    requires |src| == 16 && i < 8
  {
    (if i != 0 then [COLON] else [])
    + (if i == 6 && Embedded(WordsOf(src), r) then Text4(src[12..]) else HexText(WordsOf(src)[i]))
  }

  /** A turn of the formatting loop outside the run: a word, or the IPv4 form of
      the last four bytes, which ends the loop. */
  method FormatWord(src: seq<byte>, words: array<nat>, best: Run, i: nat, tmp: array<byte>, tp: nat) returns (tp': nat, stopped: bool)
    requires |src| == 16 && words[..] == WordsOf(src) && i < 8 && best.base + best.len <= 8 && !InRun(best, i)
    requires tp + |WordText(src, best, i)| <= tmp.Length
    modifies tmp
    ensures stopped <==> i == 6 && Embedded(WordsOf(src), best)
    ensures tp' == tp + |WordText(src, best, i)| && tmp[..tp'] == old(tmp[..tp]) + WordText(src, best, i)
  {
    hide Text4, HexText, WordsOf;
    tp' := tp;
    var word5, word7 := words[5], words[7];
    assert words[..][i] == words[i] && words[..][5] == word5;
    if i != 0 { tp' := PutText(tmp, tp', [COLON]); }
    if i == 6 { SevenCoversSix(best); }
    if i == 6 && best.base == 0 &&
       (best.len == 6 || (best.len == 7 && word7 != 0x0001) || (best.len == 5 && word5 == 0xFFFF)) {
      tp' := PutText(tmp, tp', Text4(src[12..]));
      stopped := true;
    } else {
      tp' := PutText(tmp, tp', HexText(words[i]));
      stopped := false;
    }
  }

  /** The formatting loop of inet_ntop6. */
  method FormatWords(src: seq<byte>, words: array<nat>, best: Run) returns (tmp: array<byte>, tp: nat)
    requires |src| == 16 && words[..] == WordsOf(src) && best.base + best.len <= 8
    ensures fresh(tmp) && tmp.Length == INET6_ADDRSTRLEN
    ensures tp == |Text6(src, best)| < tmp.Length && tmp[..tp] == Text6(src, best)
  {
    hide TextFrom, Text4, HexText, WordsOf;
    ghost var w, tail := WordsOf(src), Text4(src[12..]);
    ghost var text := Text6(src, best);
    Text6Fits(src, best);
    tmp := new byte[INET6_ADDRSTRLEN];
    tp := 0;
    var i := 0;
    var stopped := false;
    while i < 8
      invariant 0 <= i <= 8 && fresh(tmp) && !stopped
      invariant tp + |TextFrom(w, best, tail, i)| == |text| && tmp[..tp] + TextFrom(w, best, tail, i) == text
    {
      TextStep(w, best, tail, i, tmp[..tp]);
      if !InRun(best, i) { TurnText(src, best, i, tmp[..tp]); }
      if best.len > 0 && i >= best.base && i < best.base + best.len {
        if i == best.base { tp := PutText(tmp, tp, [COLON]); }
        i := i + 1;
        continue;
      }
      tp, stopped := FormatWord(src, words, best, i, tmp, tp);
      if stopped { break; }
      i := i + 1;
    }
    if !stopped { TextEnd(w, best, tail); }
    if best.len > 0 && best.base + best.len == 8 { tp := PutText(tmp, tp, [COLON]); }
  }

  /** The formatting loop also tests for a run of seven words in front of an IPv4
      tail.  Where it does, at word 6 outside the run, there is no such run. */
  lemma {:induction false} SevenCoversSix(r: Run)
    ensures r.base == 0 && r.len == 7 ==> InRun(r, 6)
  {
  }

  lemma {:induction false} TurnText(src: seq<byte>, r: Run, i: nat, done: seq<byte>)
    requires |src| == 16 && i < 8 && r.base + r.len <= 8 && !InRun(r, i)
    ensures var w, tail := WordsOf(src), Text4(src[12..]);
            done + TextFrom(w, r, tail, i)
            == (done + WordText(src, r, i)) + (if i == 6 && Embedded(w, r) then [] else TextFrom(w, r, tail, i + 1))
  {
    hide HexText, Text4, WordsOf;
  }

  /** One turn of the formatting loop. */
  lemma {:induction false} TextStep(w: seq<nat>, r: Run, tail: seq<byte>, i: nat, done: seq<byte>)
    requires |w| == 8 && i < 8 && r.base + r.len <= 8
    ensures done + TextFrom(w, r, tail, i)
            == if InRun(r, i) then done + (if i == r.base then [COLON] else []) + TextFrom(w, r, tail, i + 1)
               else if i == 6 && Embedded(w, r) then done + [COLON] + tail
               else done + (if i != 0 then [COLON] else []) + HexText(w[i]) + TextFrom(w, r, tail, i + 1)
    ensures i == 6 && Embedded(w, r) && !InRun(r, i) ==> r.base + r.len < 8
  {
    hide HexText;
  }

  lemma {:induction false} TextEnd(w: seq<nat>, r: Run, tail: seq<byte>)
    requires |w| == 8 && r.base + r.len <= 8
    ensures TextFrom(w, r, tail, 8) == if r.len > 0 && r.base + r.len == 8 then [COLON] else []
  {
  }

  // ---------- reading ----------

  /** inet_pton4: four bytes of dst from at on. */
  method Pton4(src: seq<byte>, dst: array<byte>, at: nat) returns (rc: int)
    requires at + 4 <= dst.Length
    modifies dst
    ensures match Read4(src, [], None)
            case None => rc == UV_EINVAL && dst[..] == old(dst[..])
            case Some(t) => rc == 0 && |t| == 4 && dst[..] == old(dst[..at]) + t + old(dst[at + 4..])
  {
    var sawDigit, octets := false, 0;
    var tmp := new byte[4];
    var tp := 0;
    tmp[0] := 0;
    var i := 0;
    assert src[0..] == src && tmp[..0] == [];
    while i < |src|
      invariant 0 <= i <= |src| && 0 <= tp <= 3 && octets == tp + (if sawDigit then 1 else 0) && fresh(tmp)
      invariant Read4(src, [], None) == Read4(src[i..], tmp[..tp], if sawDigit then Some(tmp[tp]) else None)
      invariant !sawDigit ==> tmp[tp] == 0
      modifies tmp
    {
      var ch := src[i];
      assert src[i..][0] == ch && src[i..][1..] == src[i + 1..];
      i := i + 1;
      match DigitOf(ch)
      case Some(d) =>
        var nw: nat := tmp[tp] as nat * 10 + d;
        if sawDigit && tmp[tp] == 0 { return UV_EINVAL; }
        if nw > 255 { return UV_EINVAL; }
        ghost var done := tmp[..tp];
        tmp[tp] := nw;
        assert tmp[..tp] == done;
        if !sawDigit {
          octets := octets + 1;
          if octets > 4 { return UV_EINVAL; }
          sawDigit := true;
        }
      case None =>
        if ch == DOT && sawDigit {
          if octets == 4 { return UV_EINVAL; }
          assert tmp[..tp + 1] == tmp[..tp] + [tmp[tp]];
          tp := tp + 1;
          ghost var done := tmp[..tp];
          tmp[tp] := 0;
          assert tmp[..tp] == done;
          sawDigit := false;
        } else {
          return UV_EINVAL;
        }
    }
    if octets < 4 { return UV_EINVAL; }
    assert tp == 3 && sawDigit && src[i..] == [];
    assert tmp[..3] + [tmp[3]] == tmp[..];
    dst[at], dst[at + 1], dst[at + 2], dst[at + 3] := tmp[0], tmp[1], tmp[2], tmp[3];
    assert dst[..] == old(dst[..at]) + tmp[..] + old(dst[at + 4..]);
    rc := 0;
  }

  /** The in-place shift of inet_pton6: the bytes from colonp to tp move to the
      end, and the gap is zero. */
  method ShiftTail(tmp: array<byte>, colonp: nat, tp: nat)
    requires tmp.Length == 16 && colonp <= tp < 16 && forall k :: tp <= k < 16 ==> tmp[k] == 0
    modifies tmp
    ensures tmp[..] == old(tmp[..colonp]) + Zeros(16 - tp) + old(tmp[colonp..tp])
  {
    hide PartlyMoved;
    var n := tp - colonp;
    ghost var was := tmp[..];
    NoneMoved(was, tp);
    for i := 1 to n + 1
      invariant PartlyMoved(was, tmp[..], tp, i - 1)
    {
      MoveOne(was, tmp[..], tp, i - 1);
      ghost var now := tmp[..];
      tmp[16 - i] := tmp[colonp + (n - i)];
      tmp[colonp + (n - i)] := 0;
      assert tmp[..] == now[16 - i := now[tp - i]][tp - i := 0];
    }
    Shifted(was, tmp[..], colonp, tp);
  }

  /** The last n of the first tp bytes have moved to the end, and the gap is zero. */
  predicate PartlyMoved(was: seq<byte>, now: seq<byte>, tp: nat, n: nat) {
    && |was| == |now| == 16 && n <= tp < 16
    && (forall k :: 0 <= k < tp - n ==> now[k] == was[k])
    && (forall k :: tp - n <= k < 16 - n ==> now[k] == 0)
    && (forall k :: 16 - n <= k < 16 ==> now[k] == was[k - (16 - tp)])
  }

  lemma {:induction false} NoneMoved(was: seq<byte>, tp: nat)
    requires |was| == 16 && tp < 16 && forall k :: tp <= k < 16 ==> was[k] == 0
    ensures PartlyMoved(was, was, tp, 0)
  {
  }

  lemma {:induction false} MoveOne(was: seq<byte>, now: seq<byte>, tp: nat, n: nat)
    requires PartlyMoved(was, now, tp, n) && n < tp
    ensures |now| == 16
    ensures PartlyMoved(was, now[15 - n := now[tp - 1 - n]][tp - 1 - n := 0], tp, n + 1)
  {
  }

  lemma {:induction false} Shifted(was: seq<byte>, now: seq<byte>, colonp: nat, tp: nat)
    requires colonp <= tp && PartlyMoved(was, now, tp, tp - colonp)
    ensures |was| == 16
    ensures now == was[..colonp] + Zeros(16 - tp) + was[colonp..tp]
  {
  }

  /** *tp++ for the two bytes of a word. */
  method PutWord(tmp: array<byte>, tp: nat, val: nat)
    requires tp + 2 <= tmp.Length && val < 0x10000
    modifies tmp
    ensures tmp[..tp + 2] == old(tmp[..tp]) + [val / 256, val % 256]
    ensures forall k :: tp + 2 <= k < tmp.Length ==> tmp[k] == old(tmp[k])
  {
    tmp[tp] := val / 256;
    tmp[tp + 1] := val % 256;
  }

  /** The reader's state as the variables of inet_pton6 hold it. */
  predicate Holds(tmp: array<byte>, tp: nat, colonp: int, st: Reader)
    reads tmp
  {
    && tmp.Length == 16 && tp <= 16 && -1 <= colonp <= tp
    && st.bytes == tmp[..tp] && st.colon == (if colonp == -1 then None else Some(colonp as nat))
    && forall k :: tp <= k < 16 ==> tmp[k] == 0
  }

  /** The main loop of inet_pton6. */
  method Pton6Loop(src: seq<byte>, tmp: array<byte>) returns (ok: bool, tp: nat, colonp: int, seen: nat, val: nat, ghost st: Reader)
    requires Holds(tmp, 0, -1, Reader([], None, 0, 0, src))
    modifies tmp
    ensures match Read6(src, Reader([], None, 0, 0, src))
            case None => !ok
            case Some(r) => ok && st == r && tmp.Length == 16 && Holds(tmp, tp, colonp, st) && (seen > 0 <==> st.seen > 0) && (seen > 0 ==> val == st.val)
  {
    hide Read4, Read6, Pow16;
    ghost var goal := Read6(src, Reader([], None, 0, 0, src));
    var curtok, i := 0, 0;
    ok, tp, colonp, seen, val := false, 0, -1, 0, 0;
    st := Reader([], None, 0, 0, src);
    assert src[0..] == src;
    while i < |src|
      invariant 0 <= i <= |src| && 0 <= curtok <= |src| && Fits(st) && Holds(tmp, tp, colonp, st)
      invariant goal == Read6(src[i..], st) && st.token == src[curtok..] && st.seen == seen && st.val == val
    {
      var ch := src[i];
      assert src[i..][0] == ch && src[i..][1..] == src[i + 1..];
      Read6One(src[i..], st);
      StoreFits(st);
      i := i + 1;
      var x := XDigitOf(ch);
      if x.Some? {
        val := val * 16 + x.value;
        seen := seen + 1;
        if seen > 4 { return; }
        DigitFits(st, x.value);
        st := st.(seen := seen, val := val);
        continue;
      }
      if ch == COLON {
        curtok := i;
        if seen == 0 {
          if colonp != -1 { return; }
          colonp := tp;
          st := st.(colon := Some(tp), token := src[i..]);
          continue;
        } else if i == |src| {
          return;
        }
        if tp + 2 > 16 { return; }
        st := Store(st).(token := src[i..]);
        PutWord(tmp, tp, val);
        tp, seen, val := tp + 2, 0, 0;
        continue;
      }
      if ch == DOT && tp + 4 <= 16 {
        ghost var before := tmp[..];
        var err := Pton4(src[curtok..], tmp, tp);
        if err == 0 {
          ghost var t := Read4(src[curtok..], [], None).value;
          assert tmp[..tp + 4] == before[..tp] + t;
          st := st.(bytes := st.bytes + t, seen := 0);
          tp, seen := tp + 4, 0;
          ok := true;
          return;
        }
      }
      return;
    }
    assert src[i..] == [];
    Read6None(st);
    ok := true;
  }

  lemma {:induction false} StoreFits(st: Reader)
    requires Fits(st)
    ensures st.val < 0x10000 && Fits(Store(st))
  {
  }

  /** One more digit still fits. */
  lemma {:induction false} DigitFits(st: Reader, x: nat)
    requires Fits(st) && x < 16 && st.seen < 4
    ensures Fits(st.(seen := st.seen + 1, val := st.val * 16 + x))
  {
  }

  /** What inet_pton6 does after its loop: the last word, and the shift. */
  method Pton6End(tmp: array<byte>, tp0: nat, colonp: int, seen: nat, val: nat, ghost st: Reader) returns (ok: bool)
    requires tmp.Length == 16 && Holds(tmp, tp0, colonp, st) && st.val < 0x10000
    requires (seen > 0 <==> st.seen > 0) && (seen > 0 ==> val == st.val)
    modifies tmp
    ensures match Finish(st) case None => !ok case Some(a) => ok && tmp[..] == a
  {
    var tp := tp0;
    if seen > 0 {
      if tp + 2 > 16 { return false; }
      PutWord(tmp, tp, val);
      tp := tp + 2;
    }
    ghost var t := tmp[..tp];
    if colonp != -1 {
      if tp == 16 { return false; }
      assert t[..colonp] == tmp[..colonp] && t[colonp..] == tmp[colonp..tp];
      ShiftTail(tmp, colonp, tp);
      tp := 16;
    }
    ok := tp == 16;
    assert ok ==> tmp[..16] == tmp[..];
  }

  /** inet_pton6. */
  method Pton6(src: seq<byte>, dst: array<byte>) returns (rc: int)
    requires dst.Length == 16
    modifies dst
    ensures match Parse6(src)
            case None => rc == UV_EINVAL && dst[..] == old(dst[..])
            case Some(a) => rc == 0 && dst[..] == a
  {
    hide Read6, Finish;
    var tmp := new byte[16](_ => 0);
    var text := src;
    if |src| > 0 && src[0] == COLON {
      if |src| == 1 || src[1] != COLON { return UV_EINVAL; }
      text := src[1..];
    }
    var ok, tp, colonp, seen, val, st := Pton6Loop(text, tmp);
    if !ok { return UV_EINVAL; }
    ReadValue(text, Reader([], None, 0, 0, text));
    ok := Pton6End(tmp, tp, colonp, seen, val, st);
    if !ok { return UV_EINVAL; }
    forall k | 0 <= k < 16 { dst[k] := tmp[k]; }
    assert dst[..] == tmp[..];
    rc := 0;
  }

  lemma {:induction false} ReadValue(s: seq<byte>, st: Reader)
    requires Fits(st)
    ensures Read6(s, st).Some? ==> Read6(s, st).value.val < 0x10000
  {
  }
}
