/**
 The text forms of IPv4 and IPv6 addresses (inet.c): what is written and what is
 read, and that reading inverts writing (section 2.2 of RFC 4291, section 4 of
 RFC 5952).
 */
module InetText {
  import opened Bytes

  const COLON: byte := 0x3A
  const DOT: byte := 0x2E

  // ---------- writing ----------

  function HexDigit(n: nat): byte
    requires n < 16
  {
    if n < 10 then 0x30 + n else 0x61 + (n - 10)
  }

  /** %x. */
  function HexText(n: nat): (s: seq<byte>)
    ensures |s| >= 1
  {
    if n < 16 then [HexDigit(n)] else HexText(n / 16) + [HexDigit(n % 16)]
  }

  /** %u. */
  function Decimal(n: nat): (s: seq<byte>)
    ensures |s| >= 1
  {
    if n < 10 then [0x30 + n] else Decimal(n / 10) + [0x30 + n % 10]
  }

  /** inet_ntop4. */
  function Text4(a: seq<byte>): seq<byte>
    requires |a| == 4
  {
    Decimal(a[0]) + [DOT] + Decimal(a[1]) + [DOT] + Decimal(a[2]) + [DOT] + Decimal(a[3])
  }

  /** A run of zero words; len 0 stands for none. */
  datatype Run = Run(base: nat, len: nat)

  /** The addresses whose last four bytes are written as an IPv4 address. */
  predicate Embedded(w: seq<nat>, r: Run)
    requires |w| == 8
  {
    r.base == 0 && (r.len == 6 || (r.len == 5 && w[5] == 0xFFFF))
  }

  function InRun(r: Run, i: nat): bool { r.base <= i < r.base + r.len }

  /** What inet_ntop6 writes from word i on, given the run it shortens. */
  function TextFrom(w: seq<nat>, r: Run, tail: seq<byte>, i: nat): seq<byte>
    requires |w| == 8 && i <= 8 && r.base + r.len <= 8
    decreases 8 - i
  {
    if i == 8 then (if r.len > 0 && r.base + r.len == 8 then [COLON] else [])
    else if InRun(r, i) then (if i == r.base then [COLON] else []) + TextFrom(w, r, tail, i + 1)
    else
      (if i != 0 then [COLON] else []) +
      (if i == 6 && Embedded(w, r) then tail else HexText(w[i]) + TextFrom(w, r, tail, i + 1))
  }

  function WordsOf(a: seq<byte>): (w: seq<nat>)
    requires |a| == 16
    ensures |w| == 8 && forall i :: 0 <= i < 8 ==> w[i] < 0x10000
  {
    seq(8, i requires 0 <= i < 8 => Word(a[2 * i], a[2 * i + 1]))
  }

  function Word(high: nat, low: nat): nat { high * 256 + low }

  function Text6(a: seq<byte>, r: Run): seq<byte>
    requires |a| == 16 && r.base + r.len <= 8
  {
    TextFrom(WordsOf(a), r, Text4(a[12..]), 0)
  }

  predicate IsRun(w: seq<nat>, r: Run)
    requires |w| == 8
  {
    r.base + r.len <= 8 && forall i :: r.base <= i < r.base + r.len ==> w[i] == 0
  }

  /** The leftmost longest run of at least two zero words, or none. */
  ghost predicate IsBest(w: seq<nat>, r: Run)
    requires |w| == 8
  {
    && IsRun(w, r)
    && (r.len == 0 || r.len >= 2)
    && forall b: nat, n: nat :: n >= 2 && IsRun(w, Run(b, n)) ==> n < r.len || (n == r.len && r.base <= b)
  }

  // ---------- reading ----------

  function DigitOf(c: byte): Option<nat> {
    if 0x30 <= c <= 0x39 then Some(c - 0x30) else None
  }

  function XDigitOf(c: byte): Option<nat> {
    if 0x30 <= c <= 0x39 then Some(c - 0x30)
    else if 0x61 <= c <= 0x66 then Some(c - 0x61 + 10)
    else if 0x41 <= c <= 0x46 then Some(c - 0x41 + 10)
    else None
  }

  /** inet_pton4 from a state: the octets that a dot ended, and the current one
      if a digit of it has been seen. */
  function Read4(s: seq<byte>, done: seq<byte>, cur: Option<byte>): Option<seq<byte>> {
    if s == [] then (if cur.Some? && |done| == 3 then Some(done + [cur.value]) else None)
    else if DigitOf(s[0]).Some? then
      if cur == Some(0) || (cur.None? && |done| >= 4) then None
      else
        var nw := (if cur.Some? then cur.value else 0) * 10 + DigitOf(s[0]).value;
        if nw > 255 then None else Read4(s[1..], done, Some(nw))
    else if s[0] == DOT && cur.Some? && |done| + 1 < 4 then Read4(s[1..], done + [cur.value], None)
    else None
  }

  /** The reader of IPv6 text: the bytes stored, where "::" stood, the digits and
      the value of the current token, and the text from its start. */
  datatype Reader = Reader(bytes: seq<byte>, colon: Option<nat>, seen: nat, val: nat, token: seq<byte>)

  function Pow16(n: nat): (r: nat)
    ensures r >= 1 && (n <= 4 ==> r <= 0x10000)
  {
    if n == 0 then 1 else if n == 1 then 16 else if n == 2 then 256 else if n == 3 then 4096 else 0x10000
  }

  /** The value has no more digits than were seen. */
  predicate Fits(st: Reader) { st.seen <= 4 && st.val < Pow16(st.seen) }

  function Store(st: Reader): Reader
    requires st.val < 0x10000
  {
    st.(bytes := st.bytes + [st.val / 256, st.val % 256], seen := 0, val := 0)
  }

  /** The main loop of inet_pton6. */
  function Read6(s: seq<byte>, st: Reader): (r: Option<Reader>)
    requires Fits(st)
    ensures r.Some? ==> r.value.val < 0x10000
  {
    if s == [] then Some(st)
    else if XDigitOf(s[0]).Some? then
      if st.seen >= 4 then None
      else Read6(s[1..], st.(seen := st.seen + 1, val := st.val * 16 + XDigitOf(s[0]).value))
    else if s[0] == COLON then
      if st.seen == 0 then
        if st.colon.Some? then None else Read6(s[1..], st.(colon := Some(|st.bytes|), token := s[1..]))
      else if |s| == 1 || |st.bytes| + 2 > 16 then None
      else Read6(s[1..], Store(st).(token := s[1..]))
    else if s[0] == DOT && |st.bytes| + 4 <= 16 then
      match Read4(st.token, [], None)
      case None => None
      case Some(t) => Some(st.(bytes := st.bytes + t, seen := 0))
    else None
  }

  /** One turn of the reader. */
  lemma {:induction false} Read6One(s: seq<byte>, st: Reader)
    requires Fits(st) && s != []
    ensures Read6(s, st)
            == if XDigitOf(s[0]).Some? then
                 if st.seen >= 4 then None
                 else Read6(s[1..], st.(seen := st.seen + 1, val := st.val * 16 + XDigitOf(s[0]).value))
               else if s[0] == COLON then
                 if st.seen == 0 then
                   if st.colon.Some? then None else Read6(s[1..], st.(colon := Some(|st.bytes|), token := s[1..]))
                 else if |s| == 1 || |st.bytes| + 2 > 16 then None
                 else Read6(s[1..], Store(st).(token := s[1..]))
               else if s[0] == DOT && |st.bytes| + 4 <= 16 then
                 match Read4(st.token, [], None)
                 case None => None
                 case Some(t) => Some(st.(bytes := st.bytes + t, seen := 0))
               else None
  {
  }

  lemma {:induction false} Read6None(st: Reader)
    requires Fits(st)
    ensures Read6([], st) == Some(st)
  {
  }

  function Zeros(n: nat): (z: seq<byte>)
    ensures |z| == n && forall i :: 0 <= i < n ==> z[i] == 0
  {
    seq(n, _ => 0)
  }

  /** What follows the main loop: the last word, and zeros where "::" stood. */
  function Finish(st: Reader): Option<seq<byte>>
    requires st.val < 0x10000
  {
    if st.seen > 0 && |st.bytes| + 2 > 16 then None
    else
      var t := if st.seen > 0 then Store(st).bytes else st.bytes;
      match st.colon
      case None => if |t| == 16 then Some(t) else None
      case Some(c) =>
        if |t| >= 16 || c > |t| then None else Some(t[..c] + Zeros(16 - |t|) + t[c..])
  }

  /** inet_pton6. */
  function Parse6(s: seq<byte>): Option<seq<byte>> {
    if s != [] && s[0] == COLON && (|s| == 1 || s[1] != COLON) then None
    else
      var t := if s != [] && s[0] == COLON then s[1..] else s;
      match Read6(t, Reader([], None, 0, 0, t))
      case None => None
      case Some(st) => Finish(st)
  }
}
