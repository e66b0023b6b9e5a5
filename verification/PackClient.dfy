/** The response as a client reads it, from the capabilities it sent to the pack it gets. */
module PackClient {
  import opened Options
  import opened PktLine
  import opened PackStream
  import Shallow

  /** Whether the capability is one of the two side-bands, and which. */
  predicate Names(cap: string, name: string) {
    cap == name || (|cap| > |name| && cap[..|name|] == name && cap[|name|] == '=')
  }

  /** The first side-band capability of the list is this one. */
  ghost predicate AsksFor(caps: seq<string>, name: string) {
    exists i :: 0 <= i < |caps| && Names(caps[i], name)
      && forall j :: 0 <= j < i ==> !Names(caps[j], "side-band-64k") && !Names(caps[j], "side-band")
  }

  ghost predicate AsksForNone(caps: seq<string>) {
    forall j :: 0 <= j < |caps| ==> !Names(caps[j], "side-band-64k") && !Names(caps[j], "side-band")
  }

  lemma NamesIsHasCap(cap: string, name: string)
    ensures Names(cap, name) <==> HasCap(cap, name)
  {
    if Names(cap, name) && cap != name {
      assert cap[..|name| + 1] == name + "=";
    }
    if name + "=" <= cap {
      assert cap[..|name|] == (name + "=")[..|name|];
    }
  }

  lemma OneBand(cap: string)
    ensures !(Names(cap, "side-band-64k") && Names(cap, "side-band"))
  {
    if Names(cap, "side-band-64k") {
      assert cap[9] == "side-band-64k"[9] == '-' by {
        assert cap[..13] == "side-band-64k" && cap[..13][9] == cap[9];
      }
    }
  }

  lemma {:induction false} BandIsAskedFor(caps: seq<string>)
    ensures AsksFor(caps, "side-band-64k") <==> BandOf(caps) == Band64k
    ensures AsksFor(caps, "side-band") <==> BandOf(caps) == BandSmall
    ensures AsksForNone(caps) <==> BandOf(caps) == NoBand
  {
    hide Names, HasCap;
    if caps != [] {
      NamesIsHasCap(caps[0], "side-band-64k");
      NamesIsHasCap(caps[0], "side-band");
      OneBand(caps[0]);
      BandIsAskedFor(caps[1..]);
      AsksForNext(caps, "side-band-64k");
      AsksForNext(caps, "side-band");
      assert forall j :: 1 <= j < |caps| ==> caps[j] == caps[1..][j - 1];
    }
  }

  lemma AsksForNext(caps: seq<string>, name: string)
    requires caps != []
    ensures AsksFor(caps, name) <==>
      Names(caps[0], name) || (!Names(caps[0], "side-band-64k") && !Names(caps[0], "side-band") && AsksFor(caps[1..], name))
  {
    hide Names;
    if AsksFor(caps, name) && !Names(caps[0], name) {
      var i :| 0 <= i < |caps| && Names(caps[i], name)
        && forall j :: 0 <= j < i ==> !Names(caps[j], "side-band-64k") && !Names(caps[j], "side-band");
      assert caps[1..][i - 1] == caps[i];
      assert forall j :: 0 <= j < i - 1 ==> caps[1..][j] == caps[j + 1];
    }
    if !Names(caps[0], "side-band-64k") && !Names(caps[0], "side-band") && AsksFor(caps[1..], name) {
      var i :| 0 <= i < |caps[1..]| && Names(caps[1..][i], name)
        && forall j :: 0 <= j < i ==> !Names(caps[1..][j], "side-band-64k") && !Names(caps[1..][j], "side-band");
      assert caps[i + 1] == caps[1..][i];
      assert forall j :: 1 <= j < i + 1 ==> caps[j] == caps[1..][j - 1];
    }
  }

  /** The lines up to a flush, and what is behind it. */
  function ReadLines(s: string): Option<(seq<string>, string)>
    decreases |s|
  {
    match Next(s, false)
    case Packet(m, payload, size) =>
      if m.FlushPkt? then Some(([], s[size..]))
      else if !m.Data? || payload == "" || payload[|payload| - 1] != '\n' then None
      else
        (match ReadLines(s[size..])
         case None => None
         case Some((lines, rest)) => Some(([payload[..|payload| - 1]] + lines, rest)))
    case _ => None
  }

  /** What a client reads: the shallow lines if it asked to deepen, then NAK, then what follows. */
  function ReadPreamble(s: string, deepens: bool): Option<(seq<string>, string)> {
    match if deepens then ReadLines(s) else Some(([], s))
    case None => None
    case Some((lines, rest)) =>
      match Next(rest, false)
      case Packet(Data, payload, size) => if payload == "NAK\n" then Some((lines, rest[size..])) else None
      case _ => None
  }

  lemma {:induction false} LinesAreRead(lines: seq<string>, rest: string)
    requires LinesFit(lines)
    ensures ReadLines(PktsFrom(WithNewlines(lines)) + ("0000" + rest)) == Some((lines, rest))
    decreases |lines|
  {
    hide Pkt, ReadLines;
    if lines == [] {
      assert "" + ("0000" + rest) == "0000" + rest;
      FlushIsRead(rest);
    } else {
      var ls := WithNewlines(lines);
      assert ls[1..] == WithNewlines(lines[1..]);
      var more := PktsFrom(ls[1..]) + ("0000" + rest);
      assert PktsFrom(ls) + ("0000" + rest) == Pkt(ls[0]) + more;
      LinesAreRead(lines[1..], rest);
      LineIsRead(lines[0], more, lines[1..], rest);
      assert [lines[0]] + lines[1..] == lines;
    }
  }

  lemma FlushIsRead(rest: string)
    ensures ReadLines("0000" + rest) == Some(([], rest))
  {
    hide HexValue;
    assert Pkt("") == "0000";
    ScanInvertsEncode("", rest, false);
    assert ("0000" + rest)[4..] == rest;
  }

  lemma LineIsRead(line: string, more: string, lines: seq<string>, rest: string)
    requires |line| + 1 <= MAX_PAYLOAD && ReadLines(more) == Some((lines, rest))
    ensures ReadLines(Pkt(line + "\n") + more) == Some(([line] + lines, rest))
  {
    hide HexValue;
    ScanInvertsEncode(line + "\n", more, false);
    AfterPkt(line + "\n", more);
    assert (line + "\n")[..|line|] == line;
  }

  lemma PreambleIsRead(lines: seq<string>, body: string)
    requires LinesFit(lines)
    ensures ReadPreamble(Preamble(lines) + body, lines != []) == Some((lines, body))
  {
    hide Pkt, ReadLines, PktsFrom, Pkts;
    var nak := Pkt("NAK\n") + body;
    NakIsRead(body);
    if lines == [] {
      assert Preamble(lines) + body == nak;
    } else {
      PktsAreFront(WithNewlines(lines));
      assert Preamble(lines) + body == PktsFrom(WithNewlines(lines)) + ("0000" + nak);
      LinesAreRead(lines, nak);
    }
  }

  lemma NakIsRead(body: string)
    ensures ReadPreamble(Pkt("NAK\n") + body, false) == Some(([], body))
  {
    hide HexValue, Pkt;
    ScanInvertsEncode("NAK\n", body, false);
    AfterPkt("NAK\n", body);
    NakSize();
  }

  lemma NakSize()
    ensures |Pkt("NAK\n")| == 8
  {
  }

  /** gitprotocol-pack, "Packfile Negotiation": a shallow or unshallow line. */
  function ReadShallowLine(line: string): Option<Shallow.ShallowLine> {
    if "shallow " <= line then Some(Shallow.Shallow(line[8..]))
    else if "unshallow " <= line then Some(Shallow.Unshallow(line[10..]))
    else None
  }

  function PlanText(plan: seq<Shallow.ShallowLine>): (lines: seq<string>)
    ensures |lines| == |plan|
  {
    seq(|plan|, i requires 0 <= i < |plan| => plan[i].Text())
  }

  /** The client reads each planned line for what it says. */
  lemma PlanIsRead(plan: seq<Shallow.ShallowLine>, i: nat)
    requires i < |plan|
    ensures ReadShallowLine(PlanText(plan)[i]) == Some(plan[i])
  {
    var l := plan[i];
    if l.Unshallow? {
      assert l.Text()[0] == 'u' && l.Text()[10..] == l.oid;
    } else {
      assert l.Text()[8..] == l.oid;
    }
  }

  /**
   * From the capabilities a client sent to what it gets: it reads the shallow lines back, and behind
   * the NAK the whole pack — in side-band packets of at most 65520 or 1000 bytes, by the first
   * side-band it asked for, or as it is when it asked for none.
   */
  lemma ResponseDelivers(caps: seq<string>, lines: seq<string>, pieces: seq<string>, pack: string)
    requires LinesFit(lines) && PiecesFit(pieces) && Allows(BandOf(caps), pieces) && Concat(pieces) == pack
    ensures var read := ReadPreamble(Response(BandOf(caps), lines, pieces), lines != []);
      && read.Some? && read.value.0 == lines
      && (AsksFor(caps, "side-band-64k") ==> Demux(read.value.1, 65520) == Some(pack))
      && (AsksFor(caps, "side-band") ==> Demux(read.value.1, 1000) == Some(pack))
      && (AsksForNone(caps) ==> read.value.1 == pack)
  {
    hide Pkt, Demux, BandOf, AsksFor, AsksForNone, ReadPreamble, Preamble, Concat, Mux;
    var band := BandOf(caps);
    BandIsAskedFor(caps);
    var body := Streamed(band, pieces) + Closing(band);
    PreambleIsRead(lines, body);
    if !band.NoBand? {
      DemuxInvertsMux(pieces, "", band.Max());
      assert Mux(pieces) + "0000" + "" == body;
    } else {
      assert body == Concat(pieces);
    }
  }
}
