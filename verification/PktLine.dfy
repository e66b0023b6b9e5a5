/** The pkt-line codec: streams, the encoder, and the scanner with its raw-section marker. */
module PktLine {
  import opened Options

  // ------------------------------------------------------------------ streams

  datatype ReadResult = Ok | Eof | ShortEof | Broken

  /** An io.Reader: the bytes still to come, then end of file or, if it `fails`, an error. */
  class Source {
    var rest: string
    var count: nat
    const fails: bool

    constructor (data: string, fails: bool)
      ensures rest == data && count == 0 && this.fails == fails
    {
      rest, count := data, 0;
      this.fails := fails;
    }

    /** `io.ReadFull` on a buffer of `n` bytes. */
    method ReadFull(n: nat) returns (b: string, res: ReadResult)
      modifies this
      ensures res.Ok? <==> n <= |old(rest)|
      ensures res.Ok? ==> b == old(rest)[..n] && rest == old(rest)[n..] && count == old(count) + n
      ensures !res.Ok? ==> b == old(rest) && rest == "" && count == old(count) + |old(rest)|
      ensures !res.Ok? ==> res == if fails then Broken else if old(rest) == "" then Eof else ShortEof
    {
      if n <= |rest| {
        b, rest, count := rest[..n], rest[n..], count + n;
        res := Ok;
      } else {
        res := if fails then Broken else if rest == "" then Eof else ShortEof;
        b, rest, count := rest, "", count + |rest|;
      }
    }

    /** One `Read` into a buffer of `max` bytes: any non-empty part of what is there that fits. */
    method Read(max: nat) returns (b: string, res: ReadResult)
      requires max > 0
      modifies this
      ensures b + rest == old(rest) && |b| <= max
      ensures old(rest) != "" ==> b != "" && res.Ok?
      ensures old(rest) == "" ==> b == "" && res == if fails then Broken else Eof
    {
      if rest == "" {
        b, res := "", if fails then Broken else Eof;
      } else {
        var k: nat :| 1 <= k <= max && k <= |rest|;
        b, rest, count, res := rest[..k], rest[k..], count + k, Ok;
      }
    }

    /** `bufio.Reader.Peek`: up to `n` of the next bytes, none consumed. */
    function Peek(n: nat): string
      reads this
    {
      if n <= |rest| then rest[..n] else rest
    }
  }

  /** An io.Writer that accepts `room` more bytes and fails from there on. */
  class Sink {
    var out: string
    var room: nat

    constructor (room: nat)
      ensures out == "" && this.room == room
    {
      out, this.room := "", room;
    }

    /** What the writer will have accepted in the end; no write changes it. */
    ghost function Capacity(): nat
      reads this
    {
      |out| + room
    }

    method Write(b: string) returns (ok: bool)
      modifies this
      ensures ok <==> |b| <= old(room)
      ensures ok ==> out == old(out) + b && room == old(room) - |b|
      ensures !ok ==> out == old(out) + b[..old(room)] && room == 0
    {
      ok := |b| <= room;
      if ok {
        out, room := out + b, room - |b|;
      } else {
        out, room := out + b[..room], 0;
      }
    }
  }

  /** What a sequence of writes leaves behind: all of `s`, or the prefix of it that fitted. */
  twostate predicate Wrote(w: Sink, s: string, ok: bool)
    reads w
  {
    if ok then w.out == old(w.out) + s && |s| <= old(w.room) && w.room == old(w.room) - |s|
    else old(w.room) < |s| && w.out == old(w.out) + s[..old(w.room)] && w.room == 0
  }

  // ------------------------------------------------------------------- lengths

  const MAX_PAYLOAD := 65516
  const OVERSIZE_PAYLOAD := 65520


  function HexDigit(b: char): Option<nat> {
    if '0' <= b <= '9' then Some(b as nat - '0' as nat)
    else if 'a' <= b <= 'f' then Some(b as nat - 'a' as nat + 10)
    else if 'A' <= b <= 'F' then Some(b as nat - 'A' as nat + 10)
    else None
  }

  function HexValue(p: string): (n: Option<nat>) {
    if p == "" then Some(0)
    else
      var k := |p| - 1;
      match (HexValue(p[..k]), HexDigit(p[k]))
      case (Some(n), Some(d)) => Some(n * 16 + d)
      case _ => None
  }

  method DecodeLen(p: string) returns (n: nat, ok: bool)
    ensures HexValue(p) == if ok then Some(n) else None
  {
    n := 0;
    for i := 0 to |p|
      invariant HexValue(p[..i]) == Some(n)
    {
      assert p[..i + 1][..i] == p[..i];
      match HexDigit(p[i]) {
        case None =>
          BadDigitStays(p, i);
          return 0, false;
        case Some(d) =>
          n := n * 16 + d;
      }
    }
    assert p[..|p|] == p;
    ok := true;
  }

  lemma {:induction false} BadDigitStays(p: string, i: nat)
    requires i < |p| && HexDigit(p[i]).None?
    ensures HexValue(p).None?
    decreases |p|
  {
    if i < |p| - 1 {
      BadDigitStays(p[..|p| - 1], i);
    }
  }

  function HexChar(d: nat): (c: char)
    requires d < 16
    ensures HexDigit(c) == Some(d)
  {
    if d < 10 then '0' + d as char else 'a' + (d - 10) as char
  }

  /** The four lower-case hex digits the encoder writes. */
  function Hex4(n: nat): (p: string)
    requires n < 65536
    ensures |p| == 4
  {
    [HexChar(n / 4096), HexChar(n / 256 % 16), HexChar(n / 16 % 16), HexChar(n % 16)]
  }

  lemma HexRoundTrip(n: nat)
    requires n < 65536
    ensures HexValue(Hex4(n)) == Some(n)
  {
    var p := Hex4(n);
    assert HexValue(p[..0]) == Some(0);
    assert p[..1][..0] == p[..0];
    assert HexValue(p[..1]) == Some(n / 4096);
    assert p[..2][..1] == p[..1];
    assert HexValue(p[..2]) == Some(n / 4096 * 16 + n / 256 % 16);
    assert n / 4096 * 16 + n / 256 % 16 == n / 256;
    assert p[..3][..2] == p[..2];
    assert HexValue(p[..3]) == Some(n / 256 * 16 + n / 16 % 16);
    assert n / 256 * 16 + n / 16 % 16 == n / 16;
  }

  // ------------------------------------------------------------------ encoding

  /** One packet on the wire; an empty payload is the flush packet. */
  function Pkt(payload: string): string
    requires |payload| <= MAX_PAYLOAD
  {
    if payload == "" then "0000" else Hex4(|payload| + 4) + payload
  }

  // A run of packets, from either end.

  predicate Fit(lines: seq<string>) {
    forall i :: 0 <= i < |lines| ==> |lines[i]| <= MAX_PAYLOAD
  }

  function Pkts(lines: seq<string>): string
    requires Fit(lines)
  {
    if lines == [] then ""
    else
      var n := |lines| - 1;
      Pkts(lines[..n]) + Pkt(lines[n])
  }

  lemma {:induction false} PktsPrefix(lines: seq<string>, i: nat)
    requires Fit(lines) && i <= |lines|
    ensures Fit(lines[..i]) && Pkts(lines[..i]) <= Pkts(lines)
    decreases |lines|
  {
    hide Pkt;
    if i < |lines| {
      var n := |lines| - 1;
      assert lines[..n][..i] == lines[..i];
      PktsPrefix(lines[..n], i);
    } else {
      assert lines[..i] == lines;
    }
  }

  /** The payloads still to come, in front of the terminating flush. */
  function PktsFrom(lines: seq<string>): string
    requires Fit(lines)
    decreases |lines|
  {
    if lines == [] then "" else Pkt(lines[0]) + PktsFrom(lines[1..])
  }

  lemma {:induction false} PktsFromFront(lines: seq<string>, last: string)
    requires Fit(lines) && |last| <= MAX_PAYLOAD
    ensures Fit(lines + [last]) && PktsFrom(lines + [last]) == PktsFrom(lines) + Pkt(last)
    decreases |lines|
  {
    hide Pkt;
    if lines == [] {
      assert [last][1..] == [];
    } else {
      assert (lines + [last])[1..] == lines[1..] + [last];
      PktsFromFront(lines[1..], last);
    }
  }

  lemma {:induction false} PktsAreFront(lines: seq<string>)
    requires Fit(lines)
    ensures Pkts(lines) == PktsFrom(lines)
    decreases |lines|
  {
    hide Pkt;
    if lines != [] {
      var n := |lines| - 1;
      PktsAreFront(lines[..n]);
      PktsFromFront(lines[..n], lines[n]);
      assert lines[..n] + [lines[n]] == lines;
    }
  }

  /** The encoder: refuses an oversized payload, otherwise writes one packet. */
  method Encode(w: Sink, payload: string) returns (ok: bool)
    modifies w
    ensures |payload| > 65516 ==> !ok && w.out == old(w.out) && w.room == old(w.room)
    ensures |payload| <= 65516 ==> Wrote(w, Pkt(payload), ok)
  {
    if |payload| > MAX_PAYLOAD {
      return false;
    }
    ok := w.Write(Pkt(payload));
  }

  method Flush(w: Sink) returns (ok: bool)
    modifies w
    ensures Wrote(w, "0000", ok)
  {
    ok := w.Write("0000");
  }

  // ------------------------------------------------------------------ scanning

  datatype Marker = Data | FlushPkt | Delim | ResponseEnd | Raw
  datatype Error = InvalidLength | ReadError

  /** What one Scan finds at the front of the stream. */
  datatype Step =
    | Packet(marker: Marker, payload: string, size: nat)
    | End
    | RawSection
    | Bad(error: Error, used: nat)

  function Next(s: string, fails: bool): (step: Step)
    ensures step.Packet? ==> 4 <= step.size <= |s| && step.payload == s[4..step.size] && !step.marker.Raw?
    ensures step.RawSection? ==> |s| >= 4
    ensures step.Bad? ==> step.used <= |s|
    ensures step.End? ==> s == ""
  {
    if |s| < 4 then
      if fails then Bad(ReadError, |s|) else if s == "" then End else Bad(InvalidLength, |s|)
    else
      match HexValue(s[..4])
      case None => RawSection
      case Some(n) =>
        if n == 0 then Packet(FlushPkt, "", 4)
        else if n == 1 then Packet(Delim, "", 4)
        else if n == 2 then Packet(ResponseEnd, "", 4)
        else if n < 4 || n > OVERSIZE_PAYLOAD + 4 then Bad(InvalidLength, 4)
        else if n <= |s| then Packet(Data, s[4..n], n)
        else Bad(ReadError, |s|)
  }

  /** The prefixes that stand for no data. */
  lemma SpecialPackets(tail: string, fails: bool)
    ensures Next("0000" + tail, fails) == Packet(FlushPkt, "", 4)
    ensures Next("0001" + tail, fails) == Packet(Delim, "", 4)
    ensures Next("0002" + tail, fails) == Packet(ResponseEnd, "", 4)
    ensures Next("0003" + tail, fails) == Bad(InvalidLength, 4)
    ensures Next("0004" + tail, fails) == Packet(Data, "", 4)
  {
    SpecialPrefix('0', 0, tail);
    SpecialPrefix('1', 1, tail);
    SpecialPrefix('2', 2, tail);
    SpecialPrefix('3', 3, tail);
    SpecialPrefix('4', 4, tail);
    hide HexValue;
    assert "000" + ['0'] == "0000" && "000" + ['1'] == "0001" && "000" + ['2'] == "0002";
    assert "000" + ['3'] == "0003" && "000" + ['4'] == "0004";
  }

  lemma SpecialPrefix(c: char, v: nat, tail: string)
    requires HexDigit(c) == Some(v)
    ensures var s := "000" + [c]; (s + tail)[..4] == s && HexValue(s) == Some(v)
  {
    var s := "000" + [c];
    assert s[..3] == "000" && s[..3][..2] == "00" && "00"[..1] == "0" && "0"[..0] == "";
    assert HexValue("0") == Some(0);
    assert HexValue("00") == Some(0);
    assert HexValue("000") == Some(0);
  }

  /** A length beyond the limit, a stream that ends inside a packet, a prefix that is no number. */
  lemma BrokenPackets(n: nat, part: string, prefix: string, fails: bool)
    requires n < 65536 && |prefix| == 4
    ensures n > 65524 ==> Next(Hex4(n) + part, fails) == Bad(InvalidLength, 4)
    ensures 4 < n <= 65524 && |part| < n - 4 ==> Next(Hex4(n) + part, fails) == Bad(ReadError, 4 + |part|)
    ensures (exists i :: 0 <= i < 4 && HexDigit(prefix[i]).None?) ==> Next(prefix + part, fails) == RawSection
  {
    HexRoundTrip(n);
    assert (Hex4(n) + part)[..4] == Hex4(n) && (prefix + part)[..4] == prefix;
    if i :| 0 <= i < 4 && HexDigit(prefix[i]).None? {
      BadDigitStays(prefix, i);
    }
  }

  /** The encoder's digits, most significant first, and the scanner's: those of the hexadecimal alphabet. */
  lemma HexAlphabet(c: char, d: nat, n: nat)
    requires n < 65536
    ensures HexDigit(c) == Some(d) <==> d < 16 && ("0123456789abcdef"[d] == c || "0123456789ABCDEF"[d] == c)
    ensures var p := Hex4(n); forall i :: 0 <= i < 4 ==> HexDigit(p[i]).Some?
    ensures var p := Hex4(n);
      n == HexDigit(p[0]).value * 4096 + HexDigit(p[1]).value * 256 + HexDigit(p[2]).value * 16 + HexDigit(p[3]).value
  {
    HexPlaces(n);
    HexLetters(c, d);
  }

  lemma HexPlaces(n: nat)
    requires n < 65536
    ensures n == n / 4096 * 4096 + n / 256 % 16 * 256 + n / 16 % 16 * 16 + n % 16
  {
    assert n / 256 == n / 4096 * 16 + n / 256 % 16;
    assert n / 16 == n / 256 * 16 + n / 16 % 16;
  }

  lemma HexLetters(c: char, d: nat)
    ensures HexDigit(c) == Some(d) <==> d < 16 && ("0123456789abcdef"[d] == c || "0123456789ABCDEF"[d] == c)
  {
    if d < 10 {
      assert "0123456789abcdef"[d] == "0123456789ABCDEF"[d] == '0' + d as char;
    } else if d < 16 {
      assert "0123456789abcdef"[d] == 'a' + (d - 10) as char && "0123456789ABCDEF"[d] == 'A' + (d - 10) as char;
    }
  }

  class Scanner {
    const r: Source
    var payload: string
    var raw: string
    var pending: string
    var marker: Marker
    var err: Option<Error>

    constructor (r: Source)
      ensures this.r == r && marker == Data && err == None && payload == "" && raw == "" && pending == ""
    {
      this.r := r;
      payload, raw, pending := "", "", "";
      marker, err := Data, None;
    }

    /** Advances over one packet; the state afterwards is what `Next` says of the stream. */
    method Scan() returns (more: bool)
      modifies this, r
      ensures more <==> Next(old(r.rest), r.fails).Packet?
      ensures var step := Next(old(r.rest), r.fails);
        && (step.Packet? ==>
              && marker == step.marker && payload == step.payload && raw == old(r.rest)[..step.size]
              && r.rest == old(r.rest)[step.size..] && r.count == old(r.count) + step.size && err == old(err))
        && (step.End? ==> err == None && marker == old(marker) && r.rest == "" && r.count == old(r.count))
        && (step.RawSection? ==>
              && err == None && marker == Raw && pending == old(r.rest)[..4]
              && r.rest == old(r.rest)[4..] && r.count == old(r.count) + 4)
        && (step.Bad? ==>
              && err == Some(step.error) && marker == old(marker)
              && r.rest == old(r.rest)[step.used..] && r.count == old(r.count) + step.used)
    {
      var prefix, res := r.ReadFull(4);
      if !res.Ok? {
        err := if res.Eof? then None else Some(if res.ShortEof? then InvalidLength else ReadError);
        return false;
      }
      var n, ok := DecodeLen(prefix);
      if !ok {
        marker, pending, err := Raw, prefix, None;
        return false;
      }
      if n == 0 {
        marker, raw, payload := FlushPkt, prefix, "";
        return true;
      } else if n == 1 {
        marker, raw, payload := Delim, prefix, "";
        return true;
      } else if n == 2 {
        marker, raw, payload := ResponseEnd, prefix, "";
        return true;
      }
      if n < 4 || n > OVERSIZE_PAYLOAD + 4 {
        err := Some(InvalidLength);
        return false;
      }
      var b, res' := r.ReadFull(n - 4);
      payload := b;
      if !res'.Ok? {
        err := Some(ReadError);
        return false;
      }
      marker, raw := Data, prefix + payload;
      return true;
    }
  }

  /** The scanner inverts the encoder: an encoded packet is read back whole, and no more than it. */
  lemma ScanInvertsEncode(payload: string, tail: string, fails: bool)
    requires |payload| <= MAX_PAYLOAD
    ensures Next(Pkt(payload) + tail, fails)
         == if payload == "" then Packet(FlushPkt, "", 4) else Packet(Data, payload, |payload| + 4)
  {
    var s := Pkt(payload) + tail;
    if payload == "" {
      assert s[..4] == Hex4(0);
      HexRoundTrip(0);
    } else {
      assert s[..4] == Hex4(|payload| + 4);
      HexRoundTrip(|payload| + 4);
      assert s[4..|payload| + 4] == payload;
    }
  }

  lemma AfterPkt(payload: string, tail: string)
    requires |payload| <= MAX_PAYLOAD
    ensures (Pkt(payload) + tail)[|Pkt(payload)|..] == tail
  {
  }

  // ---------------------------------------------------------------- forwarding

  /** A response that forwards to its end: packets to a clean end, or to a raw section read without error. */
  predicate Forwardable(s: string, fails: bool)
    decreases |s|
  {
    match Next(s, fails)
    case Packet(_, _, size) => Forwardable(s[size..], fails)
    case End => true
    case RawSection => !fails
    case Bad(_, _) => false
  }

  /** `io.Copy`: everything to the end of the stream, stopping at the first error of either side. */
  method Copy(w: Sink, rc: Source) returns (ok: bool)
    requires w as object != rc
    modifies w, rc
    ensures ok <==> |old(rc.rest)| <= old(w.room) && !rc.fails
    ensures ok ==> w.out == old(w.out) + old(rc.rest)
    ensures w.out <= old(w.out) + old(rc.rest)
  {
    var wrote := w.Write(rc.rest);
    rc.rest, rc.count := "", rc.count + |rc.rest|;
    ok := wrote && !rc.fails;
  }

  /** The raw section: the four bytes already taken off the stream, then the rest unparsed. */
  method ForwardRaw(pending: string, rc: Source, w: Sink) returns (ok: bool)
    requires w as object != rc
    modifies rc, w
    ensures ok <==> !rc.fails && |pending| + |old(rc.rest)| <= old(w.room)
    ensures ok ==> w.out == old(w.out) + (pending + old(rc.rest))
    ensures w.out <= old(w.out) + (pending + old(rc.rest))
  {
    var wrote := w.Write(pending);
    if !wrote {
      return false;
    }
    assert w.out + rc.rest == old(w.out) + (pending + old(rc.rest));
    ok := Copy(w, rc);
  }

  /**
   * Forwarding either succeeds, and the output is the input byte for byte, or fails, and the output
   * is a prefix of the input. It succeeds exactly on forwardable streams the writer has room for.
   */
  method ForwardStream(rc: Source, w: Sink) returns (ok: bool)
    requires w as object != rc
    modifies rc, w
    ensures ok <==> Forwardable(old(rc.rest), rc.fails) && |old(rc.rest)| <= old(w.room)
    ensures ok ==> w.out == old(w.out) + old(rc.rest)
    ensures w.out <= old(w.out) + old(rc.rest)
  {
    hide HexValue, HexDigit;
    var s := new Scanner(rc);
    while true
      invariant s.r == rc && fresh(s) && s.err == None && !s.marker.Raw?
      invariant w.out + rc.rest == old(w.out) + old(rc.rest)
      invariant |rc.rest| <= |old(rc.rest)| && w.room - |rc.rest| == old(w.room) - |old(rc.rest)|
      invariant Forwardable(old(rc.rest), rc.fails) == Forwardable(rc.rest, rc.fails)
      decreases |rc.rest|
    {
      ghost var left := rc.rest;
      var more := s.Scan();
      if !more {
        break;
      }
      assert left == s.raw + rc.rest;
      assert w.out + left == (w.out + s.raw) + rc.rest;
      var wrote := w.Write(s.raw);
      if !wrote {
        return false;
      }
    }
    if s.err.Some? {
      return false;
    }
    if s.marker.Raw? {
      ok := ForwardRaw(s.pending, rc, w);
      return ok;
    }
    return true;
  }
}
