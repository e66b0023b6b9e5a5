/** Reading the tail of a CI job log through a fixed-size circular buffer. */
module TailRead {

  const READ_BUFFER := 32 * 1024
  const MIN_HARD_CEILING := 64 * 1024 * 1024

  datatype Status = More | Eof | Failed

  /** The result of one Read: some bytes, and how the call ended. */
  datatype Chunk = Chunk(data: string, status: Status)

  function Data(script: seq<Chunk>): string {
    if script == [] then "" else script[0].data + Data(script[1..])
  }

  /** An io.Reader that chunks its stream any way it likes; past its script it is at end of file. */
  class LogReader {
    var script: seq<Chunk>

    constructor (script: seq<Chunk>)
      ensures this.script == script
    {
      this.script := script;
    }

    predicate Valid()
      reads this
    {
      forall c :: c in script ==> |c.data| <= READ_BUFFER
    }

    method Read() returns (c: Chunk)
      requires Valid()
      modifies this
      ensures Valid() && |c.data| <= READ_BUFFER
      ensures c.data + Data(script) == Data(old(script))
      ensures old(script) == [] ==> c == Chunk("", Eof) && script == []
      ensures old(script) != [] ==> c == old(script)[0] && script == old(script)[1..]
    {
      if script == [] {
        c := Chunk("", Eof);
      } else {
        c := script[0];
        assert c in script;
        script := script[1..];
      }
    }
  }

  /** The last `max` bytes, or all of them. */
  function Tail(s: string, max: nat): string {
    if |s| <= max then s else s[|s| - max..]
  }

  /** The buffer holds the tail of `all`: in order while it fills, from `pos` round to `pos` once full. */
  ghost predicate Holds(buf: seq<char>, pos: nat, all: string) {
    if |all| < |buf| then pos == |all| && buf[..pos] == all
    else (pos == 0 || (pos < |buf| && |all| > |buf|)) && buf[pos..] + buf[..pos] == Tail(all, |buf|)
  }

  /** Writing up to the end of the buffer, then wrapping, keeps the tail. */
  lemma WriteKeepsTail(buf: seq<char>, pos: nat, all: string, d: string)
    requires Holds(buf, pos, all) && |d| <= |buf| - pos && |buf| > 0
    ensures var buf' := buf[..pos] + d + buf[pos + |d|..];
      var end := pos + |d|;
      Holds(buf', if end == |buf| then 0 else end, all + d)
  {
    var end := pos + |d|;
    var buf' := buf[..pos] + d + buf[end..];
    if |all| < |buf| {
      assert buf'[..end] == all + d;
      if end == |buf| {
        assert buf'[0..] + buf'[..0] == all + d;
      }
    } else {
      var old_ := buf[pos..] + buf[..pos];
      assert buf'[end..] + buf'[..end] == old_[|d|..] + d;
      assert old_ == all[|all| - |buf|..];
      assert (all + d)[|all + d| - |buf|..] == old_[|d|..] + d;
      if end == |buf| {
        assert buf'[0..] + buf'[..0] == buf'[end..] + buf'[..end];
      }
    }
  }

  lemma HoldsNothing(buf: seq<char>)
    ensures Holds(buf, 0, "")
  {
    assert buf[0..] + buf[..0] == buf;
  }

  lemma HoldsNone(buf: seq<char>, pos: nat, all: string, d: string)
    requires buf == [] && Holds(buf, pos, all)
    ensures Holds(buf, pos, all + d)
  {
  }

  /** Reading the buffer back out gives the tail. */
  lemma HoldsText(buf: seq<char>, pos: nat, all: string)
    requires Holds(buf, pos, all)
    ensures pos <= |buf|
    ensures Tail(all, |buf|) == if |all| <= |buf| then buf[..|all|] else buf[pos..] + buf[..pos]
  {
    assert buf[0..] + buf[..0] == buf;
  }

  lemma PositionInside(buf: seq<char>, pos: nat, all: string)
    requires Holds(buf, pos, all) && buf != []
    ensures pos < |buf|
  {
  }

  /** One `copy` into the buffer in place. */
  method CopyInto(buf: array<char>, pos: nat, d: string)
    requires pos + |d| <= buf.Length
    modifies buf
    ensures buf[..] == old(buf[..pos]) + d + old(buf[pos + |d|..])
  {
    for i := 0 to |d|
      invariant buf[..pos + i] == old(buf[..pos]) + d[..i]
      invariant buf[pos + i..] == old(buf[pos + i..])
    {
      ghost var done := buf[..pos + i];
      buf[pos + i] := d[i];
      assert buf[..pos + i + 1] == done + [d[i]] && d[..i + 1] == d[..i] + [d[i]];
    }
    assert d[..|d|] == d && buf[..] == buf[..pos + |d|] + buf[pos + |d|..];
  }

  /** The inner loop: the whole chunk goes in, split wherever it meets the end of the buffer. */
  method Absorb(buf: array<char>, pos0: nat, chunk: string, ghost all: string) returns (pos: nat)
    requires buf.Length > 0 && Holds(buf[..], pos0, all)
    modifies buf
    ensures Holds(buf[..], pos, all + chunk)
  {
    PositionInside(buf[..], pos0, all);
    hide Holds;
    pos := pos0;
    var data := chunk;
    ghost var put := all;
    while data != ""
      invariant put + data == all + chunk && Holds(buf[..], pos, put) && pos < buf.Length
      decreases |data|
    {
      var space := buf.Length - pos;
      var k := if |data| > space then space else |data|;
      WriteKeepsTail(buf[..], pos, put, data[..k]);
      ghost var was := buf[..];
      CopyInto(buf, pos, data[..k]);
      assert buf[..] == was[..pos] + data[..k] + was[pos + k..];
      assert put + data == (put + data[..k]) + data[k..];
      put := put + data[..k];
      pos := if pos + k == buf.Length then 0 else pos + k;
      data := data[k..];
    }
  }

  function Ceiling(max: nat): nat {
    if max > MIN_HARD_CEILING then max else MIN_HARD_CEILING
  }

  /** The chunks taken end in an end of file, or the script ran out. */
  ghost predicate Ended(script: seq<Chunk>, rest: seq<Chunk>) {
    rest == [] || exists k :: 0 < k <= |script| && rest == script[k..] && script[k - 1].status.Eof?
  }

  ghost predicate FailedAt(script: seq<Chunk>, rest: seq<Chunk>) {
    exists k :: 0 < k <= |script| && rest == script[k..] && script[k - 1].status.Failed?
  }

  /** The read loop: until end of file, an error, or the hard ceiling. */
  method Fill(r: LogReader, buf: array<char>) returns (total: nat, pos: nat, ok: bool, ghost read: string)
    requires r.Valid()
    modifies r, buf
    ensures total == |read| && Holds(buf[..], pos, read)
    ensures read + Data(r.script) == Data(old(r.script))
    ensures total < Ceiling(buf.Length) + READ_BUFFER
    ensures ok ==> total >= Ceiling(buf.Length) || Ended(old(r.script), r.script)
    ensures !ok ==> FailedAt(old(r.script), r.script)
  {
    hide Holds, Data;
    total, pos, read := 0, 0, "";
    ghost var taken: nat := 0;
    HoldsNothing(buf[..]);
    ok := true;
    while ok
      invariant ok && r.Valid() && total == |read| && total < Ceiling(buf.Length) && Holds(buf[..], pos, read)
      invariant read + Data(r.script) == Data(old(r.script))
      invariant taken <= |old(r.script)| && r.script == old(r.script)[taken..]
      decreases |r.script|
    {
      ghost var before := r.script;
      var c := r.Read();
      assert before != [] ==> old(r.script)[taken] == before[0];
      taken := if before == [] then taken else taken + 1;
      total := total + |c.data|;
      if buf.Length > 0 {
        pos := Absorb(buf, pos, c.data, read);
      } else {
        HoldsNone(buf[..], pos, read, c.data);
      }
      assert (read + c.data) + Data(r.script) == read + (c.data + Data(r.script));
      read := read + c.data;
      if c.status.Eof? {
        break;
      }
      if c.status.Failed? {
        ok := false;
        break;
      }
      if total >= Ceiling(buf.Length) {
        break;
      }
    }
  }

  /**
   * However the stream is chunked, the text is exactly the last min(total, maxBytes) bytes read, it
   * is marked truncated iff more than that was read, and reading stops below the ceiling plus one
   * read buffer, at end of file, or at an error.
   */
  method TailRead(r: LogReader, maxBytes: int) returns (text: string, truncated: bool, ok: bool, ghost read: string)
    requires r.Valid()
    modifies r
    ensures var max := if maxBytes < 0 then 0 else maxBytes;
      && (ok ==> text == Tail(read, max) && (truncated <==> |read| > max))
      && (!ok ==> text == "" && !truncated && FailedAt(old(r.script), r.script))
      && |read| < (if max > 67_108_864 then max else 67_108_864) + 32_768
      && (ok && |read| < 67_108_864 ==> Ended(old(r.script), r.script))
    ensures read + Data(r.script) == Data(old(r.script))
  {
    hide Holds, Data, Ended, FailedAt;
    var max := if maxBytes < 0 then 0 else maxBytes;
    var buf := new char[max];
    var total, pos;
    total, pos, ok, read := Fill(r, buf);
    if !ok {
      return "", false, false, read;
    }
    truncated := total > max;
    HoldsText(buf[..], pos, read);
    if !truncated {
      return buf[..total], false, true, read;
    }
    if max == 0 {
      return "", true, true, read;
    }
    return buf[pos..] + buf[..pos], true, true, read;
  }
}
