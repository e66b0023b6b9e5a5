/** Serving a packfile: the response writer, and the producer behind it. */
module PackStream {
  import opened Options
  import opened PktLine

  /** What side-band the client negotiated. */
  datatype Band = Band64k | BandSmall | NoBand {
    /** Data bytes per packet: the packet limit of gitprotocol-capabilities less the channel byte. */
    function Max(): nat {
      match this
      case Band64k => 65519
      case BandSmall => 999
      case NoBand => 0
    }
  }

  function HasCap(cap: string, name: string): bool {
    cap == name || name + "=" <= cap
  }

  /** The first side-band capability in the client's list decides. */
  function BandOf(caps: seq<string>): Band {
    if caps == [] then NoBand
    else if HasCap(caps[0], "side-band-64k") then Band64k
    else if HasCap(caps[0], "side-band") then BandSmall
    else BandOf(caps[1..])
  }

  /** The reader end of the pack and the producer's exit: what PackObjectsStream hands out. */
  class Pack {
    const src: Source
    const exitOk: bool
    var waits: nat

    constructor (src: Source, exitOk: bool)
      ensures this.src == src && this.exitOk == exitOk && waits == 0
    {
      this.src, this.exitOk := src, exitOk;
      waits := 0;
    }

    /** Closes the reader and waits for the producer; its exit error is its own only if it was drained. */
    method Wait() returns (ok: bool)
      modifies this
      ensures waits == old(waits) + 1
      ensures src.rest == "" ==> (ok <==> exitOk)
    {
      waits := waits + 1;
      if src.rest == "" {
        ok := exitOk;
      } else {
        ok := *;
      }
    }
  }

  // ------------------------------------------------------------------ the muxer

  const CHANNEL: char := 1 as char

  function Frame(piece: string): string {
    [CHANNEL] + piece
  }

  /** No piece is larger than the side-band allows. */
  predicate Within(pieces: seq<string>, max: nat) {
    forall i :: 0 <= i < |pieces| ==> |pieces[i]| <= max
  }

  predicate PiecesFit(pieces: seq<string>) {
    forall i :: 0 <= i < |pieces| ==> 0 < |pieces[i]| && |pieces[i]| + 1 <= MAX_PAYLOAD
  }

  function Concat(pieces: seq<string>): string {
    if pieces == [] then "" else Concat(pieces[..|pieces| - 1]) + pieces[|pieces| - 1]
  }

  /** The pieces as side-band channel 1 packets. */
  function Mux(pieces: seq<string>): string
    requires PiecesFit(pieces)
  {
    if pieces == [] then "" else Mux(pieces[..|pieces| - 1]) + Pkt(Frame(pieces[|pieces| - 1]))
  }

  /** The client's side: the data of channel 1 up to the flush, in packets of at most `limit` bytes. */
  function Demux(s: string, limit: nat): Option<string>
    decreases |s|
  {
    match Next(s, false)
    case Packet(m, payload, size) =>
      if m.FlushPkt? then Some("")
      else if !m.Data? || |payload| > limit || payload == "" || payload[0] as int != 1 then None
      else
        (match Demux(s[size..], limit)
         case None => None
         case Some(d) => Some(payload[1..] + d))
    case _ => None
  }

  function ConcatFrom(pieces: seq<string>): string {
    if pieces == [] then "" else pieces[0] + ConcatFrom(pieces[1..])
  }

  lemma {:induction false} ConcatTwoWays(pieces: seq<string>)
    ensures Concat(pieces) == ConcatFrom(pieces)
    decreases |pieces|
  {
    if |pieces| == 1 {
      assert pieces[..0] == [] && pieces[1..] == [];
    } else if |pieces| > 1 {
      var n := |pieces| - 1;
      ConcatTwoWays(pieces[..n]);
      ConcatTwoWays(pieces[1..]);
      ConcatTwoWays(pieces[1..n]);
      assert pieces[..n][1..] == pieces[1..n] && pieces[1..][..n - 1] == pieces[1..n];
    }
  }

  lemma {:induction false} DemuxFrom(pieces: seq<string>, tail: string, max: nat)
    requires PiecesFit(pieces) && Within(pieces, max)
    ensures Demux(PktsFrom(Frames(pieces)) + ("0000" + tail), max + 1) == Some(ConcatFrom(pieces))
    decreases |pieces|
  {
    hide Demux, Pkt, Frame;
    if pieces == [] {
      assert "" + ("0000" + tail) == "0000" + tail;
      DemuxEnd(tail, max + 1);
    } else {
      var fs := Frames(pieces);
      assert fs[1..] == Frames(pieces[1..]);
      var rest := PktsFrom(fs[1..]) + ("0000" + tail);
      assert PktsFrom(fs) + ("0000" + tail) == Pkt(fs[0]) + rest;
      DemuxFrom(pieces[1..], tail, max);
      DemuxStep(pieces[0], rest, ConcatFrom(pieces[1..]), max);
    }
  }

  lemma DemuxEnd(tail: string, limit: nat)
    ensures Demux("0000" + tail, limit) == Some("")
  {
    hide HexValue;
    assert Pkt("") == "0000";
    ScanInvertsEncode("", tail, false);
  }

  lemma DemuxStep(piece: string, rest: string, d: string, max: nat)
    requires 0 < |piece| && |piece| + 1 <= MAX_PAYLOAD && |piece| <= max && Demux(rest, max + 1) == Some(d)
    ensures Demux(Pkt(Frame(piece)) + rest, max + 1) == Some(piece + d)
  {
    hide HexValue;
    ScanInvertsEncode(Frame(piece), rest, false);
    AfterPkt(Frame(piece), rest);
  }

  function Frames(pieces: seq<string>): (fs: seq<string>)
    requires PiecesFit(pieces)
    ensures Fit(fs) && |fs| == |pieces|
  {
    seq(|pieces|, i requires 0 <= i < |pieces| => Frame(pieces[i]))
  }

  lemma {:induction false} MuxIsPkts(pieces: seq<string>)
    requires PiecesFit(pieces)
    ensures Mux(pieces) == Pkts(Frames(pieces))
  {
    hide Pkt;
    if pieces != [] {
      MuxIsPkts(pieces[..|pieces| - 1]);
      assert Frames(pieces)[..|pieces| - 1] == Frames(pieces[..|pieces| - 1]);
    }
  }

  /** However the pack was cut into packets, the client reassembles exactly its bytes. */
  lemma DemuxInvertsMux(pieces: seq<string>, tail: string, max: nat)
    requires PiecesFit(pieces) && Within(pieces, max)
    ensures Demux(Mux(pieces) + "0000" + tail, max + 1) == Some(Concat(pieces))
  {
    hide Pkt, Demux;
    MuxIsPkts(pieces);
    PktsAreFront(Frames(pieces));
    DemuxFrom(pieces, tail, max);
    ConcatTwoWays(pieces);
    assert Mux(pieces) + "0000" + tail == Mux(pieces) + ("0000" + tail);
  }

  lemma AppendPiece(pieces: seq<string>, piece: string)
    requires PiecesFit(pieces) && 0 < |piece| && |piece| + 1 <= MAX_PAYLOAD
    ensures PiecesFit(pieces + [piece])
    ensures Mux(pieces + [piece]) == Mux(pieces) + Pkt(Frame(piece)) && Concat(pieces + [piece]) == Concat(pieces) + piece
  {
    hide Pkt;
    assert (pieces + [piece])[..|pieces|] == pieces;
  }

  /** One Write to the muxer: split into packets of at most `max` data bytes. */
  method MuxWrite(w: Sink, max: nat, data: string, ghost base: string, ghost before: seq<string>)
    returns (ok: bool, ghost pieces: seq<string>)
    requires max > 0 && |data| + 1 <= MAX_PAYLOAD && PiecesFit(before) && w.out == base + Mux(before)
    requires Within(before, max)
    modifies w
    ensures Within(pieces, max)
    ensures PiecesFit(pieces) && Concat(pieces) <= Concat(before) + data && w.out <= base + Mux(pieces)
    ensures ok ==> Concat(pieces) == Concat(before) + data && w.out == base + Mux(pieces)
    ensures w.Capacity() == old(w.Capacity())
    ensures !ok ==> |base + Mux(pieces)| > w.Capacity()
  {
    hide Pkt, Concat, Mux;
    var rest := data;
    pieces := before;
    ok := true;
    while rest != ""
      invariant ok && PiecesFit(pieces) && Concat(pieces) + rest == Concat(before) + data && |rest| <= |data|
      invariant Within(pieces, max)
      invariant w.out == base + Mux(pieces) && w.Capacity() == old(w.Capacity())
      decreases |rest|
    {
      var n := if |rest| > max then max else |rest|;
      var piece := rest[..n];
      AppendPiece(pieces, piece);
      assert rest == piece + rest[n..];
      assert Concat(pieces) + rest == (Concat(pieces) + piece) + rest[n..];
      assert base + (Mux(pieces) + Pkt(Frame(piece))) == w.out + Pkt(Frame(piece));
      ok := Encode(w, Frame(piece));
      pieces := pieces + [piece];
      rest := rest[n..];
      if !ok {
        return;
      }
    }
  }

  // --------------------------------------------------------------- the response

  predicate LinesFit(lines: seq<string>) {
    forall i :: 0 <= i < |lines| ==> |lines[i]| + 1 <= MAX_PAYLOAD
  }

  function WithNewlines(lines: seq<string>): (ls: seq<string>)
    requires LinesFit(lines)
    ensures Fit(ls) && |ls| == |lines|
  {
    seq(|lines|, i requires 0 <= i < |lines| => lines[i] + "\n")
  }

  /** The shallow section: nothing for a plain fetch, else the lines and a flush. */
  function ShallowSection(lines: seq<string>): string
    requires LinesFit(lines)
  {
    if lines == [] then "" else Pkts(WithNewlines(lines)) + "0000"
  }

  function Preamble(lines: seq<string>): string
    requires LinesFit(lines)
  {
    ShallowSection(lines) + Pkt("NAK\n")
  }

  /** The pack as sent, short of the closing flush. */
  function Streamed(band: Band, pieces: seq<string>): string
    requires PiecesFit(pieces)
  {
    if band.NoBand? then Concat(pieces) else Mux(pieces)
  }

  predicate Allows(band: Band, pieces: seq<string>) {
    band.NoBand? || Within(pieces, band.Max())
  }

  function Closing(band: Band): string {
    if band.NoBand? then "" else "0000"
  }

  lemma LineAppended(lines: seq<string>, i: nat)
    requires i < |lines| && LinesFit(lines[..i]) && |lines[i]| + 1 <= MAX_PAYLOAD
    ensures LinesFit(lines[..i + 1])
    ensures Pkts(WithNewlines(lines[..i + 1])) == Pkts(WithNewlines(lines[..i])) + Pkt(lines[i] + "\n")
  {
    hide Pkt;
    assert LinesFit(lines[..i + 1]);
    var ls := WithNewlines(lines[..i + 1]);
    assert ls[..i] == WithNewlines(lines[..i]) && ls[i] == lines[i] + "\n";
  }

  lemma LinesPrefix(lines: seq<string>, i: nat)
    requires LinesFit(lines) && i <= |lines|
    ensures LinesFit(lines[..i]) && Pkts(WithNewlines(lines[..i])) <= Pkts(WithNewlines(lines))
  {
    hide Pkt;
    PktsPrefix(WithNewlines(lines), i);
    assert WithNewlines(lines)[..i] == WithNewlines(lines[..i]);
  }

  lemma SectionParts(lines: seq<string>)
    ensures LinesFit(lines[..0]) && Pkts(WithNewlines(lines[..0])) == ""
    ensures LinesFit(lines) && lines == [] ==> ShallowSection(lines) == Pkts(WithNewlines(lines))
    ensures LinesFit(lines) && lines != [] ==> ShallowSection(lines) == Pkts(WithNewlines(lines)) + "0000"
  {
    if lines == [] {
      assert WithNewlines(lines) == [];
    }
  }

  /** The section is written iff every line fits a packet and the writer has room for it all. */
  method WriteShallowSection(w: Sink, lines: seq<string>) returns (ok: bool)
    modifies w
    ensures ok <==> LinesFit(lines) && |ShallowSection(lines)| <= old(w.room)
    ensures LinesFit(lines) ==> w.out <= old(w.out) + ShallowSection(lines)
    ensures ok ==> w.out == old(w.out) + ShallowSection(lines)
    ensures w.Capacity() == old(w.Capacity())
  {
    SectionParts(lines);
    hide Pkt, Pkts, WithNewlines, ShallowSection;
    for i := 0 to |lines|
      invariant LinesFit(lines[..i]) && w.out == old(w.out) + Pkts(WithNewlines(lines[..i]))
      invariant w.Capacity() == old(w.Capacity())
    {
      ok := Encode(w, lines[i] + "\n");
      if |lines[i]| + 1 <= MAX_PAYLOAD {
        LineAppended(lines, i);
      }
      if !ok {
        if LinesFit(lines) {
          LinesPrefix(lines, i + 1);
        }
        return;
      }
    }
    assert lines[..|lines|] == lines;
    ok := true;
    if |lines| > 0 {
      ok := Flush(w);
    }
  }

  const COPY_BUFFER := 32 * 1024
  const HEAD := 4096

  /** The head chunk and then `io.Copy` of the rest, to the muxer or straight to the writer. */
  method StreamPack(w: Sink, p: Pack, band: Band, head: string, ghost base: string)
    returns (ok: bool, ghost pieces: seq<string>)
    requires w as object != p && w as object != p.src && head != "" && |head| <= HEAD
    requires w.out == base
    modifies w, p.src
    ensures PiecesFit(pieces) && Concat(pieces) <= head + old(p.src.rest)
    ensures w.out <= base + Streamed(band, pieces)
    ensures ok ==> !p.src.fails && p.src.rest == "" && Concat(pieces) == head + old(p.src.rest)
    ensures ok ==> w.out == base + Streamed(band, pieces)
    ensures Allows(band, pieces) && w.Capacity() == old(w.Capacity())
    ensures !ok ==> p.src.fails || |base + Streamed(band, pieces)| > w.Capacity()
  {
    hide Pkt, Concat, Mux;
    ghost var all := head + p.src.rest;
    pieces := [];
    EmptyPieces();
    assert base + "" == base;
    ok, pieces := PutChunk(w, band, head, base, pieces);
    while ok
      invariant PiecesFit(pieces) && w.out <= base + Streamed(band, pieces) && Concat(pieces) <= all
      invariant ok ==> w.out == base + Streamed(band, pieces) && Concat(pieces) + p.src.rest == all
      invariant Allows(band, pieces) && w.Capacity() == old(w.Capacity())
      invariant !ok ==> |base + Streamed(band, pieces)| > w.Capacity()
      decreases |p.src.rest|, ok
    {
      var chunk, res := p.src.Read(COPY_BUFFER);
      if chunk == "" {
        ok := res.Eof?;
        return;
      }
      assert Concat(pieces) + (chunk + p.src.rest) == (Concat(pieces) + chunk) + p.src.rest;
      ok, pieces := PutChunk(w, band, chunk, base, pieces);
    }
  }

  lemma EmptyPieces()
    ensures PiecesFit([]) && Mux([]) == "" && Concat([]) == "" && forall band :: Allows(band, [])
  {
  }

  method PutChunk(w: Sink, band: Band, chunk: string, ghost base: string, ghost before: seq<string>)
    returns (ok: bool, ghost pieces: seq<string>)
    requires 0 < |chunk| <= COPY_BUFFER && PiecesFit(before) && w.out == base + Streamed(band, before)
    requires Allows(band, before)
    modifies w
    ensures Allows(band, pieces)
    ensures PiecesFit(pieces) && Concat(pieces) <= Concat(before) + chunk && w.out <= base + Streamed(band, pieces)
    ensures ok ==> Concat(pieces) == Concat(before) + chunk && w.out == base + Streamed(band, pieces)
    ensures w.Capacity() == old(w.Capacity())
    ensures !ok ==> |base + Streamed(band, pieces)| > w.Capacity()
  {
    hide Pkt, Concat, Mux;
    if band.NoBand? {
      AppendPiece(before, chunk);
      ok := w.Write(chunk);
      pieces := before + [chunk];
      assert base + (Concat(before) + chunk) == (base + Concat(before)) + chunk;
    } else {
      ok, pieces := MuxWrite(w, band.Max(), chunk, base, before);
    }
  }

  /** Stream the pack, wait for the producer, and only then close the side-band. */
  method SendPack(w: Sink, p: Pack, band: Band, head: string, ghost base: string)
    returns (ok: bool, ghost pieces: seq<string>)
    requires w as object != p && w as object != p.src && p as object != p.src
    requires head != "" && |head| <= HEAD && w.out == base
    modifies w, p, p.src
    ensures p.waits == old(p.waits) + 1
    ensures Allows(band, pieces)
    ensures PiecesFit(pieces) && Concat(pieces) <= head + old(p.src.rest)
    ensures w.out <= base + (Streamed(band, pieces) + Closing(band))
    ensures !p.exitOk || p.src.fails ==> w.out <= base + Streamed(band, pieces)
    ensures ok ==> Concat(pieces) == head + old(p.src.rest) && w.out == base + (Streamed(band, pieces) + Closing(band))
    ensures ok <==> p.exitOk && !p.src.fails && |base + (Streamed(band, pieces) + Closing(band))| <= old(w.Capacity())
    ensures w.Capacity() == old(w.Capacity())
  {
    hide Streamed, Concat, PiecesFit;
    ok, pieces := StreamPack(w, p, band, head, base);
    assert base + (Streamed(band, pieces) + Closing(band)) == (base + Streamed(band, pieces)) + Closing(band);
    var exited := p.Wait();
    if !ok || !exited {
      ok := false;
      return;
    }
    if !band.NoBand? {
      ok := w.Write("0000");
    }
  }

  /** The whole pack the producer yields before the end of its output. */
  ghost predicate NoOutput(data: string, fails: bool, exitOk: bool) {
    (fails && |data| < 4096) || (data == "" && !exitOk)
  }

  /** What is on the wire when the response is complete, or cut short by the writer. */
  ghost predicate Prefixed(out: string, start: string, lines: seq<string>, body: string) {
    LinesFit(lines) && out <= start + (Preamble(lines) + body)
  }

  ghost predicate Written(out: string, start: string, lines: seq<string>, body: string) {
    LinesFit(lines) && out == start + (Preamble(lines) + body)
  }

  lemma Regroup(a: string, b: string, c: string)
    ensures a + (b + c) == (a + b) + c
  {
  }

  lemma PrefixExtends(out: string, a: string, b: string)
    requires out <= a
    ensures out <= a + b
  {
    assert (a + b)[..|out|] == a[..|out|];
  }

  /** The whole response, regrouped around its three parts. */
  lemma ResponseParts(start: string, lines: seq<string>, body: string)
    requires LinesFit(lines)
    ensures start + (Preamble(lines) + body) == ((start + ShallowSection(lines)) + Pkt("NAK\n")) + body
  {
    hide Pkt, ShallowSection, LinesFit;
    Regroup(start, Preamble(lines), body);
    Regroup(start, ShallowSection(lines), Pkt("NAK\n"));
  }

  lemma ShallowPrefixes(out: string, start: string, lines: seq<string>, body: string)
    requires LinesFit(lines) && out <= start + ShallowSection(lines)
    ensures Prefixed(out, start, lines, body)
  {
    hide Pkt, ShallowSection, LinesFit, Preamble;
    ResponseParts(start, lines, body);
    PrefixExtends(out, start + ShallowSection(lines), Pkt("NAK\n"));
    PrefixExtends(out, (start + ShallowSection(lines)) + Pkt("NAK\n"), body);
  }

  lemma PreamblePrefixes(out: string, start: string, lines: seq<string>, body: string)
    requires LinesFit(lines) && out <= (start + ShallowSection(lines)) + Pkt("NAK\n")
    ensures Prefixed(out, start, lines, body)
  {
    hide Pkt, ShallowSection, LinesFit, Preamble;
    ResponseParts(start, lines, body);
    PrefixExtends(out, (start + ShallowSection(lines)) + Pkt("NAK\n"), body);
  }

  lemma PreambleWritten(start: string, lines: seq<string>)
    requires LinesFit(lines)
    ensures Written((start + ShallowSection(lines)) + Pkt("NAK\n"), start, lines, "")
  {
    hide Pkt, ShallowSection, LinesFit, Preamble;
    ResponseParts(start, lines, "");
  }

  lemma BodyPrefixes(out: string, base: string, start: string, lines: seq<string>, body: string)
    requires Written(base, start, lines, "")
    ensures out <= base + body ==> Prefixed(out, start, lines, body)
    ensures out == base + body ==> Written(out, start, lines, body)
  {
    hide Pkt, ShallowSection, LinesFit, Preamble;
    ResponseParts(start, lines, "");
    ResponseParts(start, lines, body);
  }

  /** The complete response. */
  function Response(band: Band, lines: seq<string>, pieces: seq<string>): string
    requires LinesFit(lines) && PiecesFit(pieces)
  {
    Preamble(lines) + (Streamed(band, pieces) + Closing(band))
  }

  /** The one way to call packWait twice: an empty pack, a clean exit, and shallow lines that cannot be written. */
  predicate WaitsTwice(data: string, fails: bool, exitOk: bool, lines: seq<string>, room: nat) {
    data == "" && !fails && exitOk && !(LinesFit(lines) && |ShallowSection(lines)| <= room)
  }

  lemma ResponseLength(band: Band, lines: seq<string>, pieces: seq<string>)
    requires LinesFit(lines) && PiecesFit(pieces)
    ensures |Response(band, lines, pieces)|
      == |ShallowSection(lines)| + |Pkt("NAK\n")| + |Streamed(band, pieces) + Closing(band)|
  {
    hide Pkt, ShallowSection, LinesFit, Streamed;
  }

  /**
   * The v0 response. packWait is called once, except in the one case that calls it twice, so the
   * producer always ends. Nothing is written when the pack fails before its first chunk; the closing
   * flush follows only a successful exit. The response succeeds exactly when the producer did, the
   * lines fit their packets and the writer has room for the preamble, the pieces the pack was cut
   * into and the flush, and then that is what is written.
   */
  method WriteV0UploadPackResponse(w: Sink, p: Pack, caps: seq<string>, lines: seq<string>)
    returns (ok: bool, ghost pieces: seq<string>)
    requires w as object != p && w as object != p.src && p as object != p.src
    modifies w, p, p.src
    ensures p.waits == old(p.waits)
      + if WaitsTwice(old(p.src.rest), p.src.fails, p.exitOk, lines, old(w.room)) then 2 else 1
    ensures NoOutput(old(p.src.rest), p.src.fails, p.exitOk) ==> !ok && w.out == old(w.out)
    ensures PiecesFit(pieces) && Allows(BandOf(caps), pieces) && Concat(pieces) <= old(p.src.rest)
    ensures LinesFit(lines) ==>
      Prefixed(w.out, old(w.out), lines, Streamed(BandOf(caps), pieces) + Closing(BandOf(caps)))
    ensures LinesFit(lines) && (!p.exitOk || p.src.fails) ==>
      Prefixed(w.out, old(w.out), lines, Streamed(BandOf(caps), pieces))
    ensures ok ==> Concat(pieces) == old(p.src.rest)
    ensures ok ==> Written(w.out, old(w.out), lines, Streamed(BandOf(caps), pieces) + Closing(BandOf(caps)))
    ensures ok <==> p.exitOk && !p.src.fails && LinesFit(lines) && |Response(BandOf(caps), lines, pieces)| <= old(w.room)
  {
    hide Pkt, Concat, Mux, ShallowSection, LinesFit, Prefixed, Written, PiecesFit, Response, Allows;
    var band := BandOf(caps);
    hide BandOf;
    pieces := [];
    EmptyPieces();
    ghost var start, data := w.out, p.src.rest;
    ghost var none := Streamed(band, pieces);
    if LinesFit(lines) {
      ShallowPrefixes(start, start, lines, none);
      ShallowPrefixes(start, start, lines, none + Closing(band));
      ResponseLength(band, lines, pieces);
    }
    var head, res := p.src.ReadFull(HEAD);
    if res.Broken? {
      var _ := p.Wait();
      return false, pieces;
    }
    if head == "" {
      var exited := p.Wait();
      if !exited {
        return false, pieces;
      }
    }
    ok := WriteShallowSection(w, lines);
    if !ok {
      if LinesFit(lines) {
        ShallowPrefixes(w.out, start, lines, none);
        ShallowPrefixes(w.out, start, lines, none + Closing(band));
      }
      var _ := p.Wait();
      return;
    }
    ok := Encode(w, "NAK\n");
    PreamblePrefixes(w.out, start, lines, none);
    PreamblePrefixes(w.out, start, lines, none + Closing(band));
    PreambleWritten(start, lines);
    ghost var base := w.out;
    if head == "" {
      assert band.NoBand? ==> none + Closing(band) == "";
      if ok && !band.NoBand? {
        ok := w.Write("0000");
        BodyPrefixes(w.out, base, start, lines, none + Closing(band));
      }
      return;
    }
    if !ok {
      var _ := p.Wait();
      return;
    }
    assert head + p.src.rest == data;
    ok, pieces := SendPack(w, p, band, head, base);
    ResponseLength(band, lines, pieces);
    BodyPrefixes(w.out, base, start, lines, Streamed(band, pieces));
    BodyPrefixes(w.out, base, start, lines, Streamed(band, pieces) + Closing(band));
  }

  /** Against what the source asks of its callers and itself: an empty pack to a closed connection. */
  method EmptyPackWaitsTwice(line: string) returns (waits: nat)
    ensures waits == 2
  {
    var src := new Source("", false);
    var p := new Pack(src, true);
    var w := new Sink(0);
    assert !LinesFit([line]) || |ShallowSection([line])| > 0;
    var _, _ := WriteV0UploadPackResponse(w, p, [], [line]);
    waits := p.waits;
  }

  lemma FramedLength(piece: string)
    requires |piece| + 1 <= MAX_PAYLOAD
    ensures |Pkt(Frame(piece))| == |piece| + 5
  {
  }

  /** However the pack is cut, six bytes of room for each of its bytes are enough. */
  lemma {:induction false} StreamedBound(band: Band, pieces: seq<string>)
    requires PiecesFit(pieces)
    ensures |Streamed(band, pieces)| <= 6 * |Concat(pieces)|
  {
    hide Pkt;
    if pieces != [] {
      var n := |pieces| - 1;
      StreamedBound(band, pieces[..n]);
      FramedLength(pieces[n]);
    }
  }

  /** So a clean pack is always delivered to a writer with that much room: no cutting makes it fail. */
  lemma EnoughRoom(band: Band, lines: seq<string>, pieces: seq<string>, data: string, room: nat)
    requires LinesFit(lines) && PiecesFit(pieces) && Concat(pieces) <= data
    requires room >= |Preamble(lines)| + 6 * |data| + 4
    ensures |Response(band, lines, pieces)| <= room
  {
    hide Streamed, Concat;
    StreamedBound(band, pieces);
  }
}
