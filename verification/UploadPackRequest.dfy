/** The git-upload-pack request: parsing it, and framing it on an SSH channel. */
module UploadPackRequest {
  import opened Options
  import opened Text
  import opened PktLine

  datatype Request = Request(wants: seq<string>, haves: seq<string>, done: bool, caps: Option<seq<string>>,
                             deepen: int, deepenNot: seq<string>, deepenSince: string, shallows: seq<string>)

  const EMPTY := Request([], [], false, None, 0, [], "", [])

  // ------------------------------------------------------------------- parsing

  function SplitWant(rest: string): (string, Option<seq<string>>) {
    var i := IndexOf(rest, ' ');
    if i == |rest| then (TrimSpace(rest), None)
    else
      var caps := TrimSpace(rest[i + 1..]);
      (rest[..i], if caps == "" then None else Some(Fields(caps)))
  }

  function Digits(s: string): Option<int> {
    if s == "" then Some(0)
    else
      var n := |s| - 1;
      match Digits(s[..n])
      case None => None
      case Some(v) => if '0' <= s[n] <= '9' then Some(v * 10 + (s[n] as nat - '0' as nat)) else None
  }

  /** `strconv.Atoi` on a 64-bit platform. */
  function Atoi(s: string): Option<int> {
    var digits := if s != "" && (s[0] == '-' || s[0] == '+') then s[1..] else s;
    if digits == "" then None
    else
      match Digits(digits)
      case None => None
      case Some(v) =>
        var n: int := if s[0] == '-' then -v else v;
        if -0x8000_0000_0000_0000 <= n < 0x8000_0000_0000_0000 then Some(n) else None
  }

  /** The effect of one data packet; a malformed `deepen` makes the request unparseable. */
  function Absorb(req: Request, payload: string): Option<Request> {
    var line := TrimRight(payload, '\n');
    if "want " <= line then
      var (sha, caps) := SplitWant(line[5..]);
      Some(req.(wants := req.wants + [sha], caps := if req.caps.None? then caps else req.caps))
    else if "have " <= line then Some(req.(haves := req.haves + [TrimSpace(line[5..])]))
    else if "deepen " <= line then
      (match Atoi(TrimSpace(line[7..]))
       case None => None
       case Some(n) => Some(req.(deepen := n)))
    else if "deepen-not " <= line then Some(req.(deepenNot := req.deepenNot + [TrimSpace(line[11..])]))
    else if "deepen-since " <= line then Some(req.(deepenSince := TrimSpace(line[13..])))
    else if "shallow " <= line then Some(req.(shallows := req.shallows + [TrimSpace(line[8..])]))
    else if line == "done" then Some(req.(done := true))
    else Some(req)
  }

  function ParseFrom(s: string, fails: bool, req: Request): Option<Request>
    decreases |s|
  {
    match Next(s, fails)
    case Packet(m, payload, size) =>
      if !m.Data? then ParseFrom(s[size..], fails, req)
      else
        (match Absorb(req, payload)
         case None => None
         case Some(req') => ParseFrom(s[size..], fails, req'))
    case Bad(_, _) => None
    case _ => if req.wants == [] then None else Some(req)
  }

  method ParseUploadPackRequest(r: Source) returns (parsed: Option<Request>)
    modifies r
    ensures parsed == ParseFrom(old(r.rest), r.fails, EMPTY)
  {
    hide HexValue, HexDigit, Absorb;
    var s := new Scanner(r);
    var req := EMPTY;
    while true
      invariant s.r == r && fresh(s) && s.err == None
      invariant ParseFrom(r.rest, r.fails, req) == ParseFrom(old(r.rest), r.fails, EMPTY)
      decreases |r.rest|
    {
      var more := s.Scan();
      if !more {
        break;
      }
      if s.marker.Data? {
        match Absorb(req, s.payload) {
          case None =>
            return None;
          case Some(req') =>
            req := req';
        }
      }
    }
    if s.err.Some? || req.wants == [] {
      return None;
    }
    parsed := Some(req);
  }

  // ---------------------------------------------------------------- round trip

  /** The lines a client may send, and the flush between sections. */
  datatype Line =
    | Want(sha: string, caps: seq<string>) | Have(sha: string) | Deepen(n: int) | DeepenNot(ref: string)
    | DeepenSince(time: string) | ShallowAt(sha: string) | DoneLine | Other(text: string) | Section
  {
    predicate Good() {
      match this
      case Want(sha, caps) => IsWord(sha) && forall c :: c in caps ==> IsWord(c)
      case Have(sha) => IsWord(sha)
      case Deepen(n) => -0x8000_0000_0000_0000 <= n < 0x8000_0000_0000_0000
      case DeepenNot(ref) => IsWord(ref)
      case DeepenSince(time) => IsWord(time)
      case ShallowAt(sha) => IsWord(sha)
      case Other(text) => text != "" && text[|text| - 1] != '\n' && !Recognized(text)
      case _ => true
    }

    function Text(): string {
      match this
      case Want(sha, caps) => "want " + sha + (if caps == [] then "" else " " + Join(caps, ' '))
      case Have(sha) => "have " + sha
      case Deepen(n) => "deepen " + IntText(n)
      case DeepenNot(ref) => "deepen-not " + ref
      case DeepenSince(time) => "deepen-since " + time
      case ShallowAt(sha) => "shallow " + sha
      case DoneLine => "done"
      case Other(text) => text
      case Section => ""
    }

    function Payload(): string {
      if Section? then "" else Text() + "\n"
    }

    /** What the line asks for. Only the first capability list counts. */
    function Meaning(req: Request): Request {
      match this
      case Want(sha, caps) =>
        req.(wants := req.wants + [sha], caps := if req.caps.None? && caps != [] then Some(caps) else req.caps)
      case Have(sha) => req.(haves := req.haves + [sha])
      case Deepen(n) => req.(deepen := n)
      case DeepenNot(ref) => req.(deepenNot := req.deepenNot + [ref])
      case DeepenSince(time) => req.(deepenSince := time)
      case ShallowAt(sha) => req.(shallows := req.shallows + [sha])
      case DoneLine => req.(done := true)
      case Other(_) => req
      case Section => req
    }
  }

  /** The lines the request is made of; a line of any other kind, such as `filter`, is passed over. */
  predicate Recognized(line: string) {
    || "want " <= line || "have " <= line || "shallow " <= line
    || "deepen " <= line || "deepen-not " <= line || "deepen-since " <= line || line == "done"
  }

  lemma OtherIsIgnored(req: Request, payload: string)
    requires !Recognized(TrimRight(payload, '\n'))
    ensures Absorb(req, payload) == Some(req)
  {
  }

  function IntText(n: int): string {
    if n < 0 then "-" + Itoa(-n) else Itoa(n)
  }

  function Itoa(n: nat): (s: string)
    ensures s != "" && forall c :: c in s ==> '0' <= c <= '9'
  {
    var d := [('0' as int + n % 10) as char];
    if n < 10 then d else Itoa(n / 10) + d
  }

  lemma {:induction false} DigitsItoa(n: nat)
    ensures Digits(Itoa(n)) == Some(n)
    decreases n
  {
    var s := Itoa(n);
    assert s[|s| - 1] as int - '0' as int == n % 10;
    if n < 10 {
      assert s[..0] == "";
    } else {
      assert s[..|s| - 1] == Itoa(n / 10);
      DigitsItoa(n / 10);
    }
  }

  /** A decimal is read back exactly when it fits 64 bits. */
  lemma AtoiIntText(n: int)
    ensures Atoi(IntText(n)) == if -0x8000_0000_0000_0000 <= n < 0x8000_0000_0000_0000 then Some(n) else None
  {
    hide Digits, Itoa;
    if n < 0 {
      DigitsItoa(-n);
      assert IntText(n)[1..] == Itoa(-n);
    } else {
      DigitsItoa(n);
      assert Itoa(n)[0] in Itoa(n);
    }
  }

  lemma {:induction false} NotDigits(s: string, i: nat)
    requires i < |s| && !('0' <= s[i] <= '9')
    ensures Digits(s).None?
    decreases |s|
  {
    if i < |s| - 1 {
      NotDigits(s[..|s| - 1], i);
    }
  }

  /** Anything but digits after an optional sign is no number. */
  lemma AtoiRejects(s: string, i: nat)
    requires i < |s| && !('0' <= s[i] <= '9') && (i > 0 || |s| == 1 || (s[0] != '-' && s[0] != '+'))
    ensures Atoi(s).None?
  {
    if s[0] == '-' || s[0] == '+' {
      if |s| > 1 {
        NotDigits(s[1..], i - 1);
      }
    } else {
      NotDigits(s, i);
    }
  }

  lemma IntTextIsWord(n: int)
    ensures IsWord(IntText(n))
  {
  }

  /** A line whose argument is one word comes back with exactly that word. */
  lemma WordLine(prefix: string, w: string)
    requires IsWord(w)
    ensures TrimRight(prefix + w + "\n", '\n') == prefix + w
    ensures (prefix + w)[|prefix|..] == w && TrimSpace(w) == w
  {
    var line := prefix + w;
    assert line[|line| - 1] == w[|w| - 1] && w[|w| - 1] in w;
    TrimRightKeeps(line, '\n', 1);
    assert line + "\n" == line + Repeat('\n', 1);
    TrimSpaceWord(w);
  }

  lemma JoinIsTrimmed(caps: seq<string>)
    requires caps != [] && forall c :: c in caps ==> IsWord(c)
    ensures var s := Join(caps, ' ');
      s != "" && TrimSpace(s) == s && !IsSpace(s[|s| - 1]) && TrimRight(s, '\n') == s
  {
    var s := Join(caps, ' ');
    assert caps[0] in caps;
    assert caps[0][0] in caps[0] && s[0] == caps[0][0];
    LastWordEnds(caps);
  }

  lemma {:induction false} LastWordEnds(caps: seq<string>)
    requires caps != [] && forall c :: c in caps ==> IsWord(c)
    ensures var s := Join(caps, ' '); s != "" && !IsSpace(s[|s| - 1])
  {
    var w := caps[0];
    assert w in caps && w[|w| - 1] in w;
    if |caps| > 1 {
      LastWordEnds(caps[1..]);
    }
  }

  lemma WantSplits(sha: string, caps: seq<string>)
    requires Want(sha, caps).Good()
    ensures SplitWant(Want(sha, caps).Text()[5..]) == (sha, if caps == [] then None else Some(caps))
  {
    hide IsWord, TrimRight, TrimSpace, Fields;
    var line := Want(sha, caps).Text();
    WordHasNoSpace(sha);
    if caps == [] {
      assert line[5..] == sha;
      WordLine("want ", sha);
    } else {
      var text := Join(caps, ' ');
      assert line[5..] == sha + [' '] + text;
      IndexAfter(sha, ' ', text);
      assert line[5..][..|sha|] == sha && line[5..][|sha| + 1..] == text;
      JoinIsTrimmed(caps);
      FieldsJoin(caps);
    }
  }

  lemma WantIsAbsorbed(req: Request, sha: string, caps: seq<string>)
    requires Want(sha, caps).Good()
    ensures Absorb(req, Want(sha, caps).Payload()) == Some(Want(sha, caps).Meaning(req))
  {
    var line := Want(sha, caps).Text();
    WantSplits(sha, caps);
    if caps == [] {
      WordLine("want ", sha);
      assert line == "want " + sha;
    } else {
      JoinIsTrimmed(caps);
      assert line[|line| - 1] == Join(caps, ' ')[|Join(caps, ' ')| - 1];
      TrimRightKeeps(line, '\n', 1);
      assert line + "\n" == line + Repeat('\n', 1);
    }
    assert TrimRight(Want(sha, caps).Payload(), '\n') == line;
    hide SplitWant, TrimRight, TrimSpace, IsWord, Fields, Join;
    assert "want " <= line;
  }

  lemma WordHasNoSpace(w: string)
    requires IsWord(w)
    ensures ' ' !in w && IndexOf(w, ' ') == |w|
  {
  }

  lemma HaveArgument(req: Request, arg: string)
    requires TrimRight("have " + arg + "\n", '\n') == "have " + arg
    ensures Absorb(req, "have " + arg + "\n") == Some(req.(haves := req.haves + [TrimSpace(arg)]))
  {
    hide TrimRight, TrimSpace, SplitWant, IsWord, Atoi;
    var line := "have " + arg;
    assert line[0] == 'h';
    assert "have " <= line && line[5..] == arg;
  }

  lemma DeepenNotArgument(req: Request, arg: string)
    requires TrimRight("deepen-not " + arg + "\n", '\n') == "deepen-not " + arg
    ensures Absorb(req, "deepen-not " + arg + "\n") == Some(req.(deepenNot := req.deepenNot + [TrimSpace(arg)]))
  {
    hide TrimRight, TrimSpace, SplitWant, IsWord, Atoi;
    var line := "deepen-not " + arg;
    assert line[0] == 'd' && line[6] == '-' && line[7] == 'n';
    assert "deepen-not " <= line && line[11..] == arg;
  }

  lemma DeepenSinceArgument(req: Request, arg: string)
    requires TrimRight("deepen-since " + arg + "\n", '\n') == "deepen-since " + arg
    ensures Absorb(req, "deepen-since " + arg + "\n") == Some(req.(deepenSince := TrimSpace(arg)))
  {
    hide TrimRight, TrimSpace, SplitWant, IsWord, Atoi;
    var line := "deepen-since " + arg;
    assert line[0] == 'd' && line[6] == '-' && line[7] == 's';
    assert "deepen-since " <= line && line[13..] == arg;
  }

  lemma ShallowArgument(req: Request, arg: string)
    requires TrimRight("shallow " + arg + "\n", '\n') == "shallow " + arg
    ensures Absorb(req, "shallow " + arg + "\n") == Some(req.(shallows := req.shallows + [TrimSpace(arg)]))
  {
    hide TrimRight, TrimSpace, SplitWant, IsWord, Atoi;
    var line := "shallow " + arg;
    assert line[0] == 's';
    assert "shallow " <= line && line[8..] == arg;
  }

  lemma DeepenWord(req: Request, w: string)
    requires IsWord(w)
    ensures Absorb(req, "deepen " + w + "\n") == match Atoi(w) case None => None case Some(n) => Some(req.(deepen := n))
  {
    WordLine("deepen ", w);
    hide TrimRight, TrimSpace, SplitWant, IsWord, Atoi;
    var line := "deepen " + w;
    assert line[0] == 'd' && "deepen " <= line && line[7..] == w;
  }

  /** A `deepen` that is no 64-bit decimal makes the request unparseable. */
  lemma MalformedDeepen(req: Request, w: string, i: nat, n: int)
    requires IsWord(w)
    requires (i < |w| && !('0' <= w[i] <= '9') && (i > 0 || |w| == 1 || (w[0] != '-' && w[0] != '+')))
      || (w == IntText(n) && !(-0x8000_0000_0000_0000 <= n < 0x8000_0000_0000_0000))
    ensures Absorb(req, "deepen " + w + "\n") == None
  {
    hide Absorb, Atoi, IsWord, IntText;
    DeepenWord(req, w);
    AtoiIntText(n);
    if w != IntText(n) || -0x8000_0000_0000_0000 <= n < 0x8000_0000_0000_0000 {
      AtoiRejects(w, i);
    }
  }

  lemma DeepenIsAbsorbed(req: Request, n: int)
    requires Deepen(n).Good()
    ensures Absorb(req, "deepen " + IntText(n) + "\n") == Some(req.(deepen := n))
  {
    hide Absorb, Atoi, IsWord, IntText;
    IntTextIsWord(n);
    DeepenWord(req, IntText(n));
    AtoiIntText(n);
  }

  lemma DoneIsAbsorbed(req: Request)
    ensures Absorb(req, "done" + "\n") == Some(req.(done := true))
  {
    TrimRightKeeps("done", '\n', 1);
    assert "done" + "\n" == "done" + Repeat('\n', 1);
    hide TrimRight, TrimSpace, SplitWant, IsWord, Atoi;
    var line := "done";
    assert line[0] == 'd' && line[1] == 'o';
  }

  lemma OtherIsAbsorbed(req: Request, text: string)
    requires Other(text).Good()
    ensures Absorb(req, text + "\n") == Some(req)
  {
    hide Recognized, Absorb;
    TrimRightKeeps(text, '\n', 1);
    assert text + "\n" == text + Repeat('\n', 1);
    OtherIsIgnored(req, text + "\n");
  }

  lemma PaddedWord(prefix: string, l: string, w: string, r: string)
    requires IsWord(w) && IsBlank(l) && IsBlank(r) && '\n' !in r && prefix != ""
    ensures var arg := l + w + r; TrimRight(prefix + arg + "\n", '\n') == prefix + arg && TrimSpace(arg) == w
  {
    assert w[0] in w && w[|w| - 1] in w;
    TrimSpacePadded(l, w, r);
    PaddedEnd(w, r);
    hide IsBlank, IsWord, TrimSpace, TrimRight, IsSpace;
    var line := prefix + (l + w + r);
    assert line[|line| - 1] == (w + r)[|w + r| - 1];
    TrimRightKeeps(line, '\n', 1);
    assert line + "\n" == line + Repeat('\n', 1);
  }

  lemma PaddedEnd(w: string, r: string)
    requires IsWord(w) && '\n' !in r
    ensures w != "" && (w + r)[|w + r| - 1] != '\n'
  {
    assert w[|w| - 1] in w;
    if r != "" {
      assert r[|r| - 1] in r;
    }
  }

  /** White space around an argument does not count. */
  lemma PaddingIsIgnored(req: Request, l: string, w: string, r: string)
    requires IsWord(w) && IsBlank(l) && IsBlank(r) && '\n' !in r
    ensures Absorb(req, "have " + (l + w + r) + "\n") == Some(req.(haves := req.haves + [w]))
    ensures Absorb(req, "shallow " + (l + w + r) + "\n") == Some(req.(shallows := req.shallows + [w]))
    ensures Absorb(req, "deepen-not " + (l + w + r) + "\n") == Some(req.(deepenNot := req.deepenNot + [w]))
    ensures Absorb(req, "deepen-since " + (l + w + r) + "\n") == Some(req.(deepenSince := w))
  {
    hide Absorb, TrimRight, TrimSpace, IsWord, IsBlank;
    PaddedWord("have ", l, w, r);
    PaddedWord("shallow ", l, w, r);
    PaddedWord("deepen-not ", l, w, r);
    PaddedWord("deepen-since ", l, w, r);
    HaveArgument(req, l + w + r);
    ShallowArgument(req, l + w + r);
    DeepenNotArgument(req, l + w + r);
    DeepenSinceArgument(req, l + w + r);
  }

  /**
   * A want without capabilities: white space behind the object id does not count, except that what
   * stands before the first space stays with the id.
   */
  lemma BareWant(sha: string, pad: string, rest: string)
    requires IsWord(sha) && IsBlank(pad) && IsBlank(rest) && ' ' !in pad
    ensures SplitWant(sha + pad) == (sha, None)
    ensures SplitWant((sha + pad) + [' '] + rest) == (sha + pad, None)
  {
    WordHasNoSpace(sha);
    BlankTrims(rest);
    hide SplitWant, IsWord, IsBlank, TrimSpace, IndexOf;
    NoSpaceAfter(sha, pad);
    SpaceAfter(sha, pad, rest);
  }

  lemma NoSpaceAfter(sha: string, pad: string)
    requires IsWord(sha) && IsBlank(pad) && ' ' !in sha && ' ' !in pad
    ensures SplitWant(sha + pad) == (sha, None)
  {
    assert sha[0] in sha && sha[|sha| - 1] in sha && "" + sha + pad == sha + pad;
    TrimSpacePadded("", sha, pad);
    hide TrimSpace, IsBlank, IsWord, Fields;
  }

  lemma SpaceAfter(sha: string, pad: string, rest: string)
    requires ' ' !in sha && ' ' !in pad
    ensures SplitWant((sha + pad) + [' '] + rest).0 == sha + pad
    ensures TrimSpace(rest) == "" ==> SplitWant((sha + pad) + [' '] + rest).1 == None
  {
    hide TrimSpace, Fields, IndexOf;
    var a := sha + pad;
    IndexAfter(a, ' ', rest);
    assert (a + [' '] + rest)[..|a|] == a && (a + [' '] + rest)[|a| + 1..] == rest;
  }

  lemma BlankTrims(s: string)
    requires IsBlank(s)
    ensures TrimSpace(s) == ""
  {
    TrimSpacePadded(s, "", "");
    assert s + "" + "" == s;
  }

  /** Parsing a line's payload has the line's meaning. */
  lemma LineIsAbsorbed(req: Request, l: Line)
    requires l.Good() && !l.Section?
    ensures Absorb(req, l.Payload()) == Some(l.Meaning(req))
  {
    hide Absorb, IsWord, IntText, Join, Recognized, TrimSpace, TrimRight;
    match l {
      case Want(sha, caps) => WantIsAbsorbed(req, sha, caps);
      case Have(sha) =>
        WordLine("have ", sha);
        HaveArgument(req, sha);
      case Deepen(n) => DeepenIsAbsorbed(req, n);
      case DeepenNot(ref) =>
        WordLine("deepen-not ", ref);
        DeepenNotArgument(req, ref);
      case DeepenSince(time) =>
        WordLine("deepen-since ", time);
        DeepenSinceArgument(req, time);
      case ShallowAt(sha) =>
        WordLine("shallow ", sha);
        ShallowArgument(req, sha);
      case DoneLine => DoneIsAbsorbed(req);
      case Other(text) => OtherIsAbsorbed(req, text);
    }
  }

  function MeaningOf(lines: seq<Line>, req: Request): Request
    decreases |lines|
  {
    if lines == [] then req else MeaningOf(lines[1..], lines[0].Meaning(req))
  }

  predicate Sendable(lines: seq<Line>) {
    forall l :: l in lines ==> l.Good() && |l.Payload()| <= MAX_PAYLOAD
  }

  function Encoded(lines: seq<Line>): string
    requires Sendable(lines)
    decreases |lines|
  {
    if lines == [] then "" else
      assert lines[0] in lines;
      Pkt(lines[0].Payload()) + Encoded(lines[1..])
  }

  lemma ParseStep(l: Line, rest: string, fails: bool, req: Request)
    requires l.Good() && |l.Payload()| <= MAX_PAYLOAD
    ensures ParseFrom(Pkt(l.Payload()) + rest, fails, req) == ParseFrom(rest, fails, l.Meaning(req))
  {
    hide HexValue, Absorb;
    ScanInvertsEncode(l.Payload(), rest, fails);
    AfterPkt(l.Payload(), rest);
    if !l.Section? {
      LineIsAbsorbed(req, l);
    }
  }

  /** A request parses to what its lines mean, or is refused when none of them is a want. */
  lemma {:induction false} RequestRoundTrip(lines: seq<Line>, req: Request)
    requires Sendable(lines)
    ensures var meant := MeaningOf(lines, req);
      ParseFrom(Encoded(lines), false, req) == if meant.wants == [] then None else Some(meant)
    decreases |lines|
  {
    if lines != [] {
      hide ParseFrom, Pkt;
      assert lines[0] in lines;
      ParseStep(lines[0], Encoded(lines[1..]), false, req);
      RequestRoundTrip(lines[1..], lines[0].Meaning(req));
    }
  }

  // ------------------------------------------------------------------- framing

  const MAX_REQUEST := 1024 * 1024

  predicate IsDone(step: Step) {
    step.Packet? && step.marker.Data? && TrimRight(step.payload, '\n') == "done"
  }

  /** Where the scan of an SSH channel ends: after the first `done` packet, or at the end of the packets. */
  datatype FrameEnd = AtDone(len: nat) | AtEnd(len: nat) | Unreadable

  function Frame(s: string, fails: bool): (f: FrameEnd)
    ensures !f.Unreadable? ==> f.len <= |s|
    decreases |s|
  {
    match Next(s, fails)
    case Packet(_, _, size) =>
      if IsDone(Next(s, fails)) then AtDone(size)
      else
        (match Frame(s[size..], fails)
         case AtDone(k) => AtDone(size + k)
         case AtEnd(k) => AtEnd(size + k)
         case Unreadable => Unreadable)
    case Bad(_, _) => Unreadable
    case _ => AtEnd(0)
  }

  /**
   * Reads the request off a duplex channel. A `done` within the cap is the exact end of the frame:
   * not one byte more is taken off the channel. Past the cap nothing is returned.
   */
  method ReadUploadPackRequest(r: Source) returns (frame: string, ok: bool)
    modifies r
    ensures var end := Frame(old(r.rest), r.fails);
      && (ok <==> !end.Unreadable? && end.len <= 1_048_576)
      && (ok ==> frame == old(r.rest)[..end.len])
      && (ok && end.AtDone? ==> r.rest == old(r.rest)[end.len..])
  {
    hide HexValue, HexDigit, Frame, IsDone;
    ghost var input := r.rest;
    ghost var k: nat := 0;
    var s := new Scanner(r);
    frame := "";
    while true
      invariant s.r == r && fresh(s) && s.err == None
      invariant k <= |input| && r.rest == input[k..] && frame == input[..k] && k <= MAX_REQUEST
      invariant Frame(input, r.fails) == Shift(k, Frame(input[k..], r.fails))
      decreases |input| - k
    {
      ghost var step := Next(r.rest, r.fails);
      FrameUnfolds(r.rest, r.fails);
      var more := s.Scan();
      if !more {
        break;
      }
      assert input[..k] + s.raw == input[..k + step.size] && input[k..][step.size..] == input[k + step.size..];
      frame := frame + s.raw;
      ShiftTwice(k, step.size, Frame(input[k + step.size..], r.fails));
      k := k + step.size;
      if |frame| > MAX_REQUEST {
        return "", false;
      }
      if s.marker.Data? && TrimRight(s.payload, '\n') == "done" {
        return frame, true;
      }
    }
    if s.err.Some? {
      return "", false;
    }
    return frame, true;
  }

  lemma FrameUnfolds(s: string, fails: bool)
    ensures var step := Next(s, fails);
      && (step.Packet? && step.marker.Data? && TrimRight(step.payload, '\n') == "done" ==> Frame(s, fails) == AtDone(step.size))
      && (step.Packet? && !(step.marker.Data? && TrimRight(step.payload, '\n') == "done") ==>
            Frame(s, fails) == Shift(step.size, Frame(s[step.size..], fails)))
      && (step.Bad? ==> Frame(s, fails).Unreadable?)
      && (step.End? || step.RawSection? ==> Frame(s, fails) == AtEnd(0))
  {
    hide Next;
  }

  function Shift(k: nat, f: FrameEnd): FrameEnd {
    match f
    case AtDone(n) => AtDone(k + n)
    case AtEnd(n) => AtEnd(k + n)
    case Unreadable => Unreadable
  }

  lemma ShiftTwice(j: nat, k: nat, f: FrameEnd)
    ensures Shift(j, Shift(k, f)) == Shift(j + k, f)
  {
  }

  lemma LineEnds(l: Line)
    requires l.Good() && !l.Section?
    ensures l.Text() != "" && l.Text()[|l.Text()| - 1] != '\n'
    ensures l.Text() == "done" <==> l.DoneLine?
  {
    hide IsWord, IntText, Join, Recognized;
    match l {
      case Want(sha, caps) =>
        if caps != [] {
          JoinIsTrimmed(caps);
          var text := Join(caps, ' ');
          assert l.Text() == "want " + sha + (" " + text) && l.Text()[|l.Text()| - 1] == text[|text| - 1];
        } else {
          TailOfWord("want ", sha);
          assert l.Text() == "want " + sha;
        }
        assert l.Text()[0] == 'w';
      case Have(sha) =>
        TailOfWord("have ", sha);
        assert l.Text()[0] == 'h';
      case Deepen(n) =>
        IntTextIsWord(n);
        TailOfWord("deepen ", IntText(n));
        assert l.Text()[1] == 'e';
      case DeepenNot(ref) =>
        TailOfWord("deepen-not ", ref);
        assert l.Text()[1] == 'e';
      case DeepenSince(time) =>
        TailOfWord("deepen-since ", time);
        assert l.Text()[1] == 'e';
      case ShallowAt(sha) =>
        TailOfWord("shallow ", sha);
        assert l.Text()[0] == 's';
      case DoneLine =>
      case Other(text) => NotDone(text);
    }
  }

  lemma NotDone(text: string)
    requires !Recognized(text)
    ensures text != "done"
  {
  }

  lemma TailOfWord(prefix: string, w: string)
    requires IsWord(w)
    ensures w != "" && (prefix + w)[|prefix + w| - 1] != '\n'
  {
    assert w[|w| - 1] in w;
  }

  /** One packet of an encoded request in front of the channel. */
  lemma FrameOfLine(l: Line, rest: string, fails: bool)
    requires l.Good() && |l.Payload()| <= MAX_PAYLOAD
    ensures var size := |Pkt(l.Payload())|;
      Frame(Pkt(l.Payload()) + rest, fails) == if l.DoneLine? then AtDone(size) else Shift(size, Frame(rest, fails))
  {
    hide HexValue, Pkt, Next, Frame, Line.Good, Line.Text;
    ScanInvertsEncode(l.Payload(), rest, fails);
    AfterPkt(l.Payload(), rest);
    PktSize(l.Payload());
    FrameUnfolds(Pkt(l.Payload()) + rest, fails);
    if !l.Section? {
      LineEnds(l);
      TrimRightKeeps(l.Text(), '\n', 1);
      assert l.Payload() == l.Text() + Repeat('\n', 1);
    }
  }

  lemma EncodedCons(lines: seq<Line>, tail: string)
    requires Sendable(lines) && lines != []
    ensures lines[0].Good() && |lines[0].Payload()| <= MAX_PAYLOAD && Sendable(lines[1..])
    ensures Encoded(lines) + tail == Pkt(lines[0].Payload()) + (Encoded(lines[1..]) + tail)
    ensures |Encoded(lines)| == |Pkt(lines[0].Payload())| + |Encoded(lines[1..])|
  {
    hide Pkt, Line.Good, Line.Payload;
    assert lines[0] in lines;
  }

  /** The frame of an encoded request ends exactly with its `done`, whatever follows on the channel. */
  lemma {:induction false} RequestIsFramed(lines: seq<Line>, tail: string, fails: bool)
    requires Sendable(lines) && lines != [] && lines[|lines| - 1].DoneLine?
    requires forall i :: 0 <= i < |lines| - 1 ==> !lines[i].DoneLine?
    ensures Frame(Encoded(lines) + tail, fails) == AtDone(|Encoded(lines)|)
    decreases |lines|
  {
    hide Pkt, Frame, Encoded, Line.Good, Line.Payload, Sendable;
    EncodedCons(lines, tail);
    FrameOfLine(lines[0], Encoded(lines[1..]) + tail, fails);
    if lines[0].DoneLine? {
      assert lines[1..] == [];
      NothingEncoded();
    } else {
      RequestIsFramed(lines[1..], tail, fails);
    }
  }

  lemma NothingEncoded()
    ensures Sendable([]) && Encoded([]) == ""
  {
  }

  lemma PktSize(payload: string)
    requires |payload| <= MAX_PAYLOAD
    ensures |Pkt(payload)| == |payload| + 4
  {
  }

  /** The proxy's own cap on the request body: `io.LimitReader` at one byte past the limit. */
  method ReadCapped(body: Source) returns (buf: string, ok: bool)
    modifies body
    ensures ok <==> |old(body.rest)| <= 1_048_576 && !body.fails
    ensures ok ==> buf == old(body.rest)
  {
    var res;
    buf, res := body.ReadFull(MAX_REQUEST + 1);
    ok := !res.Ok? && !res.Broken?;
  }

  // ------------------------------------------------------ the frame is complete

  lemma NextOfPrefix(s: string, fails: bool, k: nat)
    requires k <= |s| && Next(s, fails).Packet? && Next(s, fails).size <= k
    ensures Next(s[..k], false) == Next(s, fails)
  {
    assert s[..k][..4] == s[..4];
    var size := Next(s, fails).size;
    assert s[..k][4..size] == s[4..size];
  }

  lemma DoneIsKept(req: Request, payload: string)
    requires Absorb(req, payload).Some? && (req.done || TrimRight(payload, '\n') == "done")
    ensures Absorb(req, payload).value.done
  {
  }

  lemma {:induction false} DoneSticks(s: string, fails: bool, req: Request)
    requires req.done && ParseFrom(s, fails, req).Some?
    ensures ParseFrom(s, fails, req).value.done
    decreases |s|
  {
    hide HexValue, Absorb;
    var step := Next(s, fails);
    if step.Packet? {
      if step.marker.Data? {
        DoneIsKept(req, step.payload);
        DoneSticks(s[step.size..], fails, Absorb(req, step.payload).value);
      } else {
        DoneSticks(s[step.size..], fails, req);
      }
    }
  }

  /** A frame that ends at `done` parses, if at all, to a request whose negotiation is done. */
  lemma {:induction false} FrameIsDone(s: string, fails: bool, req: Request)
    requires Frame(s, fails).AtDone?
    requires ParseFrom(s[..Frame(s, fails).len], false, req).Some?
    ensures ParseFrom(s[..Frame(s, fails).len], false, req).value.done
    decreases |s|
  {
    hide HexValue, Absorb, Next;
    var k := Frame(s, fails).len;
    var step := Next(s, fails);
    NextOfPrefix(s, fails, k);
    assert s[..k][step.size..] == s[step.size..k];
    if IsDone(step) {
      DoneIsKept(req, step.payload);
      DoneSticks(s[step.size..k], false, Absorb(req, step.payload).value);
    } else {
      var rest := s[step.size..];
      assert s[step.size..k] == rest[..Frame(rest, fails).len];
      var req' := if step.marker.Data? then Absorb(req, step.payload).value else req;
      FrameIsDone(rest, fails, req');
    }
  }

  /** The SSH session end to end: a frame that stopped at `done` is never rejected by the proxy's cap. */
  method FrameAndParse(channel: Source) returns (accepted: bool, parsed: Option<Request>)
    modifies channel
    ensures Frame(old(channel.rest), channel.fails).AtDone? ==>
      (accepted <==> Frame(old(channel.rest), channel.fails).len <= 1_048_576)
    ensures Frame(old(channel.rest), channel.fails).AtDone? && parsed.Some? ==> parsed.value.done
  {
    hide HexValue, Absorb, Next, Frame;
    ghost var input := channel.rest;
    var frame, ok := ReadUploadPackRequest(channel);
    if !ok {
      return false, None;
    }
    var body := new Source(frame, false);
    var buf, within := ReadCapped(body);
    if !within {
      return false, None;
    }
    var request := new Source(buf, false);
    parsed := ParseUploadPackRequest(request);
    accepted := true;
    if Frame(input, channel.fails).AtDone? && parsed.Some? {
      FrameIsDone(input, channel.fails, EMPTY);
    }
  }
}
