/** Parsing a git-receive-pack request: the commands, and where the packfile starts. */
module ReceivePackRequest {
  import opened Options
  import opened Text
  import opened PktLine

  /** A command as sent; only the first carries capabilities. */
  datatype Command = Command(oldId: string, newId: string, ref: string, caps: seq<string>)

  datatype Parse = Parsed(commands: seq<Command>, packOffset: int) | Rejected

  // -------------------------------------------------------------- command lines

  /** `splitCaps`: nil and the empty list are the same here, as no capability list is empty. */
  function SplitCaps(s: string): seq<string> {
    Fields(s)
  }

  /** `strings.SplitN(s, " ", 3)`, when it yields three fields. */
  function SplitThree(s: string): Option<(string, string, string)> {
    var i := IndexOf(s, ' ');
    if i == |s| then None
    else
      var rest := s[i + 1..];
      var j := IndexOf(rest, ' ');
      if j == |rest| then None else Some((s[..i], rest[..j], rest[j + 1..]))
  }

  function ParseCommand(b: string): Option<Command> {
    var i := IndexOf(b, NUL);
    var caps := if i < |b| then SplitCaps(TrimRight(b[i + 1..], '\n')) else [];
    match SplitThree(TrimRight(b[..i], '\n'))
    case None => None
    case Some((o, n, r)) => Some(Command(o, n, r, caps))
  }

  // ------------------------------------------------------------------- the parse

  /** Capabilities are kept on the first command only. */
  function Kept(cmd: Command, commands: seq<Command>): Command {
    if commands == [] then cmd else cmd.(caps := [])
  }

  /** The parse of the stream from `pos` on, with the commands read so far. */
  function ParseFrom(s: string, fails: bool, commands: seq<Command>, pos: nat): Parse
    requires pos <= |s|
    decreases |s| - pos
  {
    match Next(s[pos..], fails)
    case Packet(m, payload, size) =>
      if m.FlushPkt? then Finish(s, commands, pos + size)
      else if !m.Data? then ParseFrom(s, fails, commands, pos + size)
      else
        (match ParseCommand(payload)
         case None => Rejected
         case Some(cmd) => ParseFrom(s, fails, commands + [Kept(cmd, commands)], pos + size))
    case End => Finish(s, commands, pos)
    case RawSection => Finish(s, commands, pos + 4)
    case Bad(_, _) => Rejected
  }

  function Finish(s: string, commands: seq<Command>, pos: nat): Parse
    requires pos <= |s|
  {
    if commands == [] then Rejected
    else Parsed(commands, if "PACK" <= s[pos..] then pos else -1)
  }

  function ParseSpec(s: string, fails: bool): Parse {
    ParseFrom(s, fails, [], 0)
  }

  method ParseReceivePackRequest(r: Source) returns (p: Parse)
    requires r.count == 0
    modifies r
    ensures p == ParseSpec(old(r.rest), r.fails)
  {
    hide HexValue, HexDigit, ParseCommand;
    ghost var input := r.rest;
    var s := new Scanner(r);
    var commands: seq<Command> := [];
    while true
      invariant s.r == r && fresh(s) && s.err == None
      invariant r.count <= |input| && r.rest == input[r.count..]
      invariant ParseFrom(input, r.fails, commands, r.count) == ParseSpec(input, r.fails)
      decreases |input| - r.count
    {
      ghost var pos := r.count;
      var more := s.Scan();
      assert more ==> input[pos..][s.r.count - pos..] == input[s.r.count..];
      if !more || s.marker.FlushPkt? {
        break;
      }
      if !s.marker.Data? {
        continue;
      }
      match ParseCommand(s.payload) {
        case None =>
          return Rejected;
        case Some(cmd) =>
          commands := commands + [Kept(cmd, commands)];
      }
    }
    if s.err.Some? || commands == [] {
      return Rejected;
    }
    p := Parsed(commands, if r.Peek(4) == "PACK" then r.count else -1);
    assert r.rest == input[r.count..];
    assert "PACK" <= r.rest <==> r.Peek(4) == "PACK";
  }

  // ------------------------------------------------------------------ round trip

  /** How a client writes a command: capabilities, if any, after a NUL and a space. */
  function CommandLine(cmd: Command): string {
    cmd.oldId + " " + cmd.newId + " " + cmd.ref + (if cmd.caps == [] then "" else [NUL] + " " + Join(cmd.caps, ' '))
  }

  predicate Sendable(cmd: Command) {
    && IsToken(cmd.oldId) && IsToken(cmd.newId) && IsToken(cmd.ref)
    && (forall c :: c in cmd.caps ==> IsToken(c))
    && |CommandLine(cmd)| <= MAX_PAYLOAD
  }

  function EncodeCommands(cmds: seq<Command>): string
    requires forall c :: c in cmds ==> Sendable(c)
  {
    if cmds == [] then "" else
      assert cmds[0] in cmds;
      assert Sendable(cmds[0]);
      Pkt(CommandLine(cmds[0])) + EncodeCommands(cmds[1..])
  }

  lemma WordEdges(w: string, c: char)
    requires IsWord(w) && IsSpace(c)
    ensures TrimRight(w, c) == w && c !in w
  {
    assert w[|w| - 1] in w;
  }

  lemma CapsSurvive(caps: seq<string>)
    requires caps != [] && forall c :: c in caps ==> IsToken(c)
    ensures SplitCaps(TrimRight(" " + Join(caps, ' '), '\n')) == caps
  {
    var line := " " + Join(caps, ' ');
    forall c | c in caps ensures c != "" && c[|c| - 1] != '\n' {
      WordEdges(c, '\n');
    }
    JoinEnds(caps, ' ', '\n');
    assert line[|line| - 1] == Join(caps, ' ')[|Join(caps, ' ')| - 1];
    assert TrimRight(line, '\n') == line;
    FieldsJoin(caps);
    assert line[1..] == Join(caps, ' ');
  }

  function Head(cmd: Command): string {
    cmd.oldId + ([' '] + (cmd.newId + ([' '] + cmd.ref)))
  }

  lemma SplitAt(a: string, c: char, b: string)
    requires c !in a
    ensures var s := a + ([c] + b); IndexOf(s, c) == |a| && s[..|a|] == a && s[|a| + 1..] == b
  {
    assert a + ([c] + b) == a + [c] + b;
    IndexAfter(a, c, b);
  }

  lemma ThreeParts(a: string, b: string, c: string)
    requires ' ' !in a && ' ' !in b
    ensures SplitThree(a + ([' '] + (b + ([' '] + c)))) == Some((a, b, c))
  {
    hide IndexOf;
    SplitAt(a, ' ', b + ([' '] + c));
    SplitAt(b, ' ', c);
  }

  lemma HeadSurvives(cmd: Command)
    requires IsToken(cmd.oldId) && IsToken(cmd.newId) && IsToken(cmd.ref)
    ensures SplitThree(TrimRight(Head(cmd), '\n')) == Some((cmd.oldId, cmd.newId, cmd.ref))
    ensures NUL !in Head(cmd)
  {
    hide IsWord, SplitThree, TrimRight;
    WordEdges(cmd.oldId, ' ');
    WordEdges(cmd.newId, ' ');
    ThreeParts(cmd.oldId, cmd.newId, cmd.ref);
    LastChar(cmd);
  }

  lemma LastChar(cmd: Command)
    requires IsWord(cmd.ref)
    ensures TrimRight(Head(cmd), '\n') == Head(cmd)
  {
    var h := Head(cmd);
    assert h[|h| - 1] == cmd.ref[|cmd.ref| - 1] && cmd.ref[|cmd.ref| - 1] in cmd.ref;
  }

  lemma ParseHead(h: string)
    requires NUL !in h
    ensures SplitThree(TrimRight(h, '\n')).Some? ==>
      var (o, n, r) := SplitThree(TrimRight(h, '\n')).value; ParseCommand(h) == Some(Command(o, n, r, []))
  {
    hide SplitThree, TrimRight, SplitCaps;
    assert IndexOf(h, NUL) == |h| && h[..|h|] == h;
  }

  lemma ParseHeadAndCaps(h: string, caps: string)
    requires NUL !in h
    ensures SplitThree(TrimRight(h, '\n')).Some? ==>
      var (o, n, r) := SplitThree(TrimRight(h, '\n')).value;
      ParseCommand(h + ([NUL] + caps)) == Some(Command(o, n, r, SplitCaps(TrimRight(caps, '\n'))))
  {
    hide SplitThree, TrimRight, SplitCaps, IndexOf;
    SplitAt(h, NUL, caps);
  }

  lemma LineParts(cmd: Command)
    ensures CommandLine(cmd) == if cmd.caps == [] then Head(cmd) else Head(cmd) + ([NUL] + (" " + Join(cmd.caps, ' ')))
  {
    hide Join;
  }

  lemma CommandSurvives(cmd: Command)
    requires Sendable(cmd)
    ensures ParseCommand(CommandLine(cmd)) == Some(cmd)
  {
    hide IsWord, SplitThree, TrimRight, SplitCaps, ParseCommand, CommandLine, Head, Join;
    HeadSurvives(cmd);
    LineParts(cmd);
    if cmd.caps == [] {
      ParseHead(Head(cmd));
    } else {
      ParseHeadAndCaps(Head(cmd), " " + Join(cmd.caps, ' '));
      CapsSurvive(cmd.caps);
    }
  }

  function KeptAll(cmds: seq<Command>, before: seq<Command>): seq<Command>
    decreases |cmds|
  {
    if cmds == [] then before else KeptAll(cmds[1..], before + [Kept(cmds[0], before)])
  }

  /** One encoded packet at the front of the unread stream is one step of the parse. */
  lemma ParseStep(s: string, fails: bool, before: seq<Command>, pos: nat, line: string, rest: string, cmd: Command)
    requires pos <= |s| && 0 < |line| <= MAX_PAYLOAD && s[pos..] == Pkt(line) + rest && ParseCommand(line) == Some(cmd)
    ensures pos + |line| + 4 <= |s| && s[pos + |line| + 4..] == rest
    ensures ParseFrom(s, fails, before, pos) == ParseFrom(s, fails, before + [Kept(cmd, before)], pos + |line| + 4)
  {
    hide HexValue, ParseCommand, Finish;
    ScanInvertsEncode(line, rest, fails);
    AfterPkt(line, rest);
    assert s[pos + |line| + 4..] == s[pos..][|line| + 4..];
  }

  lemma ParseEnd(s: string, fails: bool, before: seq<Command>, pos: nat, tail: string)
    requires pos <= |s| && s[pos..] == "0000" + tail
    ensures ParseFrom(s, fails, before, pos) == Finish(s, before, |s| - |tail|)
  {
    hide HexValue, ParseCommand, Finish;
    assert Pkt("") == "0000";
    ScanInvertsEncode("", tail, fails);
  }

  lemma {:induction false} CommandsSurvive(s: string, fails: bool, cmds: seq<Command>, before: seq<Command>, pos: nat, tail: string)
    requires forall c :: c in cmds ==> Sendable(c)
    requires pos <= |s| && s[pos..] == EncodeCommands(cmds) + ("0000" + tail)
    ensures ParseFrom(s, fails, before, pos) == Finish(s, KeptAll(cmds, before), |s| - |tail|)
    decreases |cmds|
  {
    hide ParseCommand, CommandLine, Kept, Sendable, ParseFrom, Finish, Pkt;
    if cmds == [] {
      assert s[pos..] == "0000" + tail;
      ParseEnd(s, fails, before, pos, tail);
    } else {
      assert cmds[0] in cmds;
      SendableFits(cmds[0]);
      var line := CommandLine(cmds[0]);
      var rest := EncodeCommands(cmds[1..]) + ("0000" + tail);
      assert s[pos..] == Pkt(line) + rest;
      CommandSurvives(cmds[0]);
      ParseStep(s, fails, before, pos, line, rest, cmds[0]);
      CommandsSurvive(s, fails, cmds[1..], before + [Kept(cmds[0], before)], pos + |line| + 4, tail);
    }
  }

  lemma SendableFits(cmd: Command)
    requires Sendable(cmd)
    ensures 0 < |CommandLine(cmd)| <= MAX_PAYLOAD
  {
  }

  lemma {:induction false} KeptAllCommands(cmds: seq<Command>, before: seq<Command>)
    requires before != []
    ensures |KeptAll(cmds, before)| == |before| + |cmds|
    ensures KeptAll(cmds, before)[..|before|] == before
    ensures forall i :: 0 <= i < |cmds| ==> KeptAll(cmds, before)[|before| + i] == cmds[i].(caps := [])
    decreases |cmds|
  {
    if cmds != [] {
      var next := before + [Kept(cmds[0], before)];
      KeptAllCommands(cmds[1..], next);
      var all := KeptAll(cmds, before);
      assert all[..|before|] == all[..|next|][..|before|];
      assert all[|before|] == all[..|next|][|before|];
      forall i | 1 <= i < |cmds| ensures all[|before| + i] == cmds[i].(caps := []) {
        assert all[|next| + (i - 1)] == cmds[1..][i - 1].(caps := []);
      }
    }
  }

  /** The first command with its capabilities, the others without any. */
  function FirstCapsOnly(cmds: seq<Command>): seq<Command> {
    seq(|cmds|, i requires 0 <= i < |cmds| => if i == 0 then cmds[0] else cmds[i].(caps := []))
  }

  /**
   * Any encoded command list, flush and tail parse back: the same commands, capabilities on the
   * first alone, and an offset that splits the body exactly into header and pack when the tail is a
   * pack, or -1 when none follows.
   */
  lemma RequestRoundTrip(cmds: seq<Command>, tail: string, fails: bool)
    requires cmds != [] && forall c :: c in cmds ==> Sendable(c)
    ensures var header := EncodeCommands(cmds) + "0000";
      ParseSpec(header + tail, fails) == Parsed(FirstCapsOnly(cmds), if "PACK" <= tail then |header| else -1)
  {
    hide Sendable, CommandLine, ParseFrom, EncodeCommands, Finish;
    var header := EncodeCommands(cmds) + "0000";
    var s := header + tail;
    assert s[0..] == EncodeCommands(cmds) + ("0000" + tail);
    CommandsSurvive(s, fails, cmds, [], 0, tail);
    KeptFirst(cmds);
    assert KeptAll(cmds, []) == FirstCapsOnly(cmds);
    assert s[|header|..] == tail;
    FinishAt(s, FirstCapsOnly(cmds), |header|);
  }

  /** A first packet with fewer than two spaces before its NUL is no command, and the request is rejected. */
  lemma MalformedCommandIsRejected(a: string, b: string, line: string, rest: string, fails: bool)
    requires ' ' !in a && ' ' !in b && NUL !in a && NUL !in b
    requires var head := TrimRight(line[..IndexOf(line, NUL)], '\n'); head == a || head == a + ([' '] + b)
    requires 0 < |line| <= MAX_PAYLOAD
    ensures ParseCommand(line) == None && ParseSpec(Pkt(line) + rest, fails) == Rejected
  {
    hide TrimRight, IndexOf, SplitThree, ParseSpec, Pkt, SplitCaps;
    OneSpaceIsNoCommand(TrimRight(line[..IndexOf(line, NUL)], '\n'), a, b);
    BadFirstPacket(line, rest, fails);
  }

  lemma BadFirstPacket(line: string, rest: string, fails: bool)
    requires 0 < |line| <= MAX_PAYLOAD && ParseCommand(line) == None
    ensures ParseSpec(Pkt(line) + rest, fails) == Rejected
  {
    hide HexValue, ParseCommand, Pkt, Finish;
    ScanInvertsEncode(line, rest, fails);
    var s := Pkt(line) + rest;
    assert s[0..] == s;
  }

  lemma OneSpaceIsNoCommand(head: string, a: string, b: string)
    requires ' ' !in a && ' ' !in b && (head == a || head == a + ([' '] + b))
    ensures SplitThree(head) == None
  {
    if head != a {
      SplitAt(a, ' ', b);
    }
  }

  /** A request without a command is rejected, whatever follows. */
  lemma EmptyRequestIsRejected(tail: string, fails: bool)
    ensures ParseSpec("0000" + tail, fails) == Rejected
  {
    hide HexValue;
    ScanInvertsEncode("", tail, fails);
    assert Pkt("") == "0000" && ("0000" + tail)[0..] == "0000" + tail;
  }

  lemma FinishAt(s: string, commands: seq<Command>, pos: nat)
    requires pos <= |s| && commands != []
    ensures Finish(s, commands, pos) == Parsed(commands, if "PACK" <= s[pos..] then pos else -1)
  {
  }

  lemma KeptFirst(cmds: seq<Command>)
    requires cmds != []
    ensures |KeptAll(cmds, [])| == |cmds|
    ensures forall i :: 0 <= i < |cmds| ==> KeptAll(cmds, [])[i] == if i == 0 then cmds[0] else cmds[i].(caps := [])
  {
    var kept := KeptAll(cmds, []);
    assert kept == KeptAll(cmds[1..], [cmds[0]]) by { assert [] + [Kept(cmds[0], [])] == [cmds[0]]; }
    KeptAllCommands(cmds[1..], [cmds[0]]);
    assert kept[0] == kept[..1][0];
    forall i | 1 <= i < |cmds| ensures kept[i] == cmds[i].(caps := []) {
      assert kept[1 + (i - 1)] == cmds[1..][i - 1].(caps := []);
    }
  }
}
