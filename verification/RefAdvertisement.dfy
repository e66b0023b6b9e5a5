/** Ref advertisements: the v0 printer, the raw (SSH) printer and the parser. */
module RefAdvertisement {
  import opened Options
  import opened Commits
  import opened Text
  import opened PktLine

  datatype Ref = Ref(hash: string, name: string)
  datatype Advertisement = Advertisement(service: string, refs: seq<Ref>, caps: seq<string>)

  // -------------------------------------------------------------- capabilities

  /** Capabilities the enforce path cannot honour. */
  predicate Stripped(c: string) {
    c == "version 2" || c == "no-done"
  }

  function Strip(cs: seq<string>): seq<string> {
    if cs == [] then []
    else
      var n := |cs| - 1;
      Strip(cs[..n]) + (if Stripped(cs[n]) then [] else [cs[n]])
  }

  /** Append each capability not there yet. */
  function Merge(merged: seq<string>, cs: seq<string>): seq<string> {
    if cs == [] then merged
    else
      var n := |cs| - 1;
      var m := Merge(merged, cs[..n]);
      if cs[n] in m then m else m + [cs[n]]
  }

  function V0Caps(upstream: seq<string>, extra: seq<string>): seq<string> {
    Merge(Merge([], Strip(upstream)), extra)
  }

  method BuildV0Caps(upstream: seq<string>, extra: seq<string>) returns (merged: seq<string>)
    ensures merged == V0Caps(upstream, extra)
  {
    hide Stripped, Strip, Merge;
    var seen: set<string> := {};
    merged := [];
    MergeNothing([]);
    for i := 0 to |upstream|
      invariant merged == Merge([], Strip(upstream[..i])) && forall c :: c in seen <==> c in merged
    {
      var c := upstream[i];
      StripNext(upstream, i);
      if Stripped(c) {
        continue;
      }
      MergeOne([], Strip(upstream[..i]), c);
      if c in seen {
        continue;
      }
      seen := seen + {c};
      merged := merged + [c];
    }
    assert upstream[..|upstream|] == upstream;
    ghost var base := merged;
    MergeNothing(base);
    for i := 0 to |extra|
      invariant merged == Merge(base, extra[..i]) && forall c :: c in seen <==> c in merged
    {
      var c := extra[i];
      MergeNext(base, extra, i);
      if c in seen {
        continue;
      }
      seen := seen + {c};
      merged := merged + [c];
    }
    assert extra[..|extra|] == extra;
  }

  lemma MergeNothing(merged: seq<string>)
    ensures Merge(merged, []) == merged && Strip([]) == []
  {
  }

  lemma StripNext(cs: seq<string>, i: nat)
    requires i < |cs|
    ensures Strip(cs[..i + 1]) == if Stripped(cs[i]) then Strip(cs[..i]) else Strip(cs[..i]) + [cs[i]]
  {
    hide Stripped;
    assert cs[..i + 1][..i] == cs[..i];
  }

  lemma MergeNext(merged: seq<string>, cs: seq<string>, i: nat)
    requires i < |cs|
    ensures Merge(merged, cs[..i + 1]) == var m := Merge(merged, cs[..i]); if cs[i] in m then m else m + [cs[i]]
  {
    assert cs[..i + 1][..i] == cs[..i];
  }

  lemma MergeOne(merged: seq<string>, cs: seq<string>, c: string)
    ensures Merge(merged, cs + [c]) == var m := Merge(merged, cs); if c in m then m else m + [c]
  {
    assert (cs + [c])[..|cs|] == cs;
  }

  lemma {:induction false} MergeFacts(merged: seq<string>, cs: seq<string>)
    requires Distinct(merged)
    ensures var m := Merge(merged, cs);
      merged <= m && Distinct(m) && forall c :: c in m <==> c in merged || c in cs
  {
    if cs != [] {
      var n := |cs| - 1;
      MergeFacts(merged, cs[..n]);
      assert cs == cs[..n] + [cs[n]];
    }
  }

  lemma {:induction false} StripMembers(cs: seq<string>)
    ensures forall c :: c in Strip(cs) <==> c in cs && !Stripped(c)
  {
    hide Stripped;
    if cs != [] {
      var n := |cs| - 1;
      StripMembers(cs[..n]);
      assert cs == cs[..n] + [cs[n]];
    }
  }

  lemma {:induction false} StripDistinct(cs: seq<string>)
    requires Distinct(cs)
    ensures Distinct(Strip(cs))
  {
    hide Stripped;
    if cs != [] {
      var n := |cs| - 1;
      StripDistinct(cs[..n]);
      StripMembers(cs[..n]);
      assert cs[n] !in cs[..n];
    }
  }

  /** The result lists, once each, the upstream's honourable capabilities and every extra one. */
  lemma V0CapsMembers(upstream: seq<string>, extra: seq<string>)
    ensures Distinct(V0Caps(upstream, extra))
    ensures forall c :: c in V0Caps(upstream, extra) <==>
      (c in upstream && c != "version 2" && c != "no-done") || c in extra
    ensures forall c :: Stripped(c) <==> c == "version 2" || c == "no-done"
  {
    StripMembers(upstream);
    MergeFacts([], Strip(upstream));
    MergeFacts(Merge([], Strip(upstream)), extra);
  }

  lemma {:induction false} MergeFresh(merged: seq<string>, cs: seq<string>)
    requires Distinct(merged + cs)
    ensures Merge(merged, cs) == merged + cs
  {
    if cs != [] {
      var n := |cs| - 1;
      var all := merged + cs;
      assert merged + cs[..n] == all[..|all| - 1];
      MergeFresh(merged, cs[..n]);
      assert cs[n] == all[|all| - 1];
      assert cs[n] !in merged + cs[..n];
    }
  }

  lemma {:induction false} MergeConcat(cs: seq<string>, ds: seq<string>)
    ensures Merge([], cs + ds) == Merge(Merge([], cs), ds)
    decreases |ds|
  {
    if ds == [] {
      assert cs + ds == cs;
    } else {
      var n := |ds| - 1;
      assert (cs + ds)[..|cs| + n] == cs + ds[..n];
      MergeConcat(cs, ds[..n]);
    }
  }

  /** `a` occurs in the list at a point where `b` has not occurred yet. */
  ghost predicate Before(l: seq<string>, a: string, b: string) {
    exists p :: 0 <= p < |l| && l[p] == a && b !in l[..p + 1]
  }

  lemma {:induction false} MergeOrder(l: seq<string>)
    ensures var m := Merge([], l); forall i, j :: 0 <= i < j < |m| ==> Before(l, m[i], m[j])
  {
    if l != [] {
      var n := |l| - 1;
      MergeOrder(l[..n]);
      MergeFacts([], l[..n]);
      var before := Merge([], l[..n]);
      var m := Merge([], l);
      forall i, j | 0 <= i < j < |m| ensures Before(l, m[i], m[j]) {
        assert m[i] == before[i] && before[i] in l[..n];
        if j < |before| {
          var p :| 0 <= p < n && l[..n][p] == m[i] && m[j] !in l[..n][..p + 1];
          assert l[..n][..p + 1] == l[..p + 1];
        } else {
          var p :| 0 <= p < n && l[p] == m[i];
          assert forall q :: 0 <= q < n ==> l[q] in l[..n];
        }
      }
    }
  }

  /** The order is that of first occurrence: the upstream's list, then the extra one. */
  lemma V0CapsOrder(upstream: seq<string>, extra: seq<string>)
    ensures var caps := V0Caps(upstream, extra);
      forall i, j :: 0 <= i < j < |caps| ==> Before(Strip(upstream) + extra, caps[i], caps[j])
  {
    hide Merge, Strip, Before;
    MergeConcat(Strip(upstream), extra);
    MergeOrder(Strip(upstream) + extra);
  }

  // -------------------------------------------------------------- emitting again

  function OnlyStripped(cs: seq<string>): seq<string> {
    if cs == [] then []
    else
      var n := |cs| - 1;
      OnlyStripped(cs[..n]) + (if Stripped(cs[n]) then [cs[n]] else [])
  }

  lemma {:induction false} OnlyStrippedMembers(cs: seq<string>)
    ensures forall c :: c in OnlyStripped(cs) <==> c in cs && Stripped(c)
  {
    hide Stripped;
    if cs != [] {
      var n := |cs| - 1;
      OnlyStrippedMembers(cs[..n]);
      assert cs == cs[..n] + [cs[n]];
    }
  }

  /** An honourable capability that is new in the extra list after one that is not honourable. */
  ghost predicate Displaced(upstream: seq<string>, extra: seq<string>) {
    exists k, j :: 0 <= k < j < |extra| && Stripped(extra[k]) && IsNew(upstream, extra, k, j)
  }

  predicate IsNew(upstream: seq<string>, extra: seq<string>, k: nat, j: nat)
    requires k < |extra| && j < |extra|
  {
    !Stripped(extra[j]) && extra[j] !in extra[..k] && extra[j] !in upstream
  }

  ghost predicate Mixed(m: seq<string>) {
    exists i, j :: 0 <= i < j < |m| && Stripped(m[i]) && !Stripped(m[j])
  }

  lemma MixedNext(m: seq<string>, c: string)
    ensures Mixed(m + [c]) <==> Mixed(m) || (!Stripped(c) && exists x :: x in m && Stripped(x))
  {
    hide Stripped;
    var t := m + [c];
    if Mixed(m) {
      var i, j :| 0 <= i < j < |m| && Stripped(m[i]) && !Stripped(m[j]);
      assert t[i] == m[i] && t[j] == m[j];
    }
    if x :| x in m && Stripped(x) && !Stripped(c) {
      var i :| 0 <= i < |m| && m[i] == x;
      assert t[i] == x && t[|m|] == c;
    }
    if i, j :| 0 <= i < j < |t| && Stripped(t[i]) && !Stripped(t[j]) {
      assert m[i] in m;
    }
  }

  lemma PartsAppend(m: seq<string>, c: string)
    ensures Strip(m + [c]) == if Stripped(c) then Strip(m) else Strip(m) + [c]
    ensures OnlyStripped(m + [c]) == if Stripped(c) then OnlyStripped(m) + [c] else OnlyStripped(m)
  {
    hide Stripped;
    assert (m + [c])[..|m|] == m;
  }

  /** Moving the capabilities to strip behind the others changes nothing iff they are there already. */
  lemma {:induction false} Partition(m: seq<string>)
    ensures Strip(m) + OnlyStripped(m) == m <==> !Mixed(m)
  {
    hide Stripped, Mixed, Strip, OnlyStripped;
    if m == [] {
      EmptyParts();
    } else {
      var n := |m| - 1;
      Partition(m[..n]);
      MixedNext(m[..n], m[n]);
      assert m == m[..n] + [m[n]];
      PartsAppend(m[..n], m[n]);
      OnlyStrippedMembers(m[..n]);
      PartitionNext(Strip(m[..n]), OnlyStripped(m[..n]), m[..n], m[n]);
      if OnlyStripped(m[..n]) != [] {
        assert OnlyStripped(m[..n])[0] in OnlyStripped(m[..n]);
      }
    }
  }

  lemma EmptyParts()
    ensures Strip([]) + OnlyStripped([]) == [] && !Mixed([])
  {
  }

  /** One more element at the end of a partitioned list, on either side. */
  lemma PartitionNext(a: seq<string>, b: seq<string>, m: seq<string>, c: string)
    ensures a + (b + [c]) == m + [c] <==> a + b == m
    ensures b == [] ==> ((a + [c]) + b == m + [c] <==> a + b == m)
    ensures c !in b && b != [] ==> (a + [c]) + b != m + [c]
  {
    assert a + (b + [c]) == (a + b) + [c];
    if a + (b + [c]) == m + [c] {
      assert ((a + b) + [c])[..|a + b|] == a + b && (m + [c])[..|m|] == m;
    }
    if b == [] {
      assert (a + [c]) + b == a + [c] && a + b == a;
      if a + [c] == m + [c] {
        assert (a + [c])[..|a|] == a && (m + [c])[..|m|] == m;
      }
    } else {
      var t := (a + [c]) + b;
      assert t[|t| - 1] == b[|b| - 1] && b[|b| - 1] in b;
      assert (m + [c])[|m|] == c;
    }
  }

  /** Merged again, the honourable capabilities come first and the others behind, each in its order. */
  lemma {:induction false} MergeAgain(base: seq<string>, extra: seq<string>, i: nat, kept: seq<string>)
    requires i <= |extra| && forall c :: c in base || c in kept ==> !Stripped(c)
    requires forall c :: c in extra ==> Stripped(c) || c in kept
    ensures Merge(kept, extra[..i]) == kept + OnlyStripped(Merge(base, extra[..i]))
    decreases i
  {
    hide Stripped, Merge, OnlyStripped;
    if i == 0 {
      NoneStripped(base);
      MergeNothing(kept);
      MergeNothing(base);
      assert extra[..0] == [] && kept + [] == kept;
    } else {
      var c, m := extra[i - 1], Merge(base, extra[..i - 1]);
      MergeAgain(base, extra, i - 1, kept);
      MergeNext(kept, extra, i - 1);
      MergeNext(base, extra, i - 1);
      assert c in extra;
      AgainStep(kept, m, c);
    }
  }

  lemma AgainStep(kept: seq<string>, m: seq<string>, c: string)
    requires (forall x :: x in kept ==> !Stripped(x)) && (!Stripped(c) ==> c in kept)
    ensures var t, next := kept + OnlyStripped(m), if c in m then m else m + [c];
      (if c in t then t else t + [c]) == kept + OnlyStripped(next)
  {
    hide Stripped, OnlyStripped;
    OnlyStrippedMembers(m);
    PartsAppend(m, c);
    assert kept + (OnlyStripped(m) + [c]) == kept + OnlyStripped(m) + [c];
  }

  lemma {:induction false} NoneStripped(cs: seq<string>)
    requires forall c :: c in cs ==> !Stripped(c)
    ensures OnlyStripped(cs) == []
  {
    hide Stripped;
    if cs != [] {
      assert cs[|cs| - 1] in cs;
      NoneStripped(cs[..|cs| - 1]);
    }
  }

  /** The extra list mixes what it adds iff it displaces: `base` is what the upstream contributed. */
  lemma {:induction false} MergeMixes(upstream: seq<string>, base: seq<string>, extra: seq<string>, i: nat)
    requires i <= |extra| && Distinct(base) && forall c :: c in base <==> c in upstream && !Stripped(c)
    ensures Mixed(Merge(base, extra[..i])) <==> Displaced(upstream, extra[..i])
    decreases i
  {
    hide Stripped, Mixed, Merge, Displaced;
    if i == 0 {
      assert extra[..0] == [];
      MergeNothing(base);
      UnmixedStart(upstream, base);
    } else {
      var c, m := extra[i - 1], Merge(base, extra[..i - 1]);
      MergeMixes(upstream, base, extra, i - 1);
      MergeNext(base, extra, i - 1);
      MergeFacts(base, extra[..i - 1]);
      MixedNext(m, c);
      assert extra[..i - 1] + [c] == extra[..i];
      DisplacedNext(upstream, extra[..i - 1], c);
    }
  }

  lemma UnmixedStart(upstream: seq<string>, base: seq<string>)
    requires forall c :: c in base ==> !Stripped(c)
    ensures !Mixed(base) && !Displaced(upstream, [])
  {
    hide Stripped;
    assert forall i :: 0 <= i < |base| ==> base[i] in base;
  }

  lemma DisplacedNext(upstream: seq<string>, extra: seq<string>, c: string)
    ensures Displaced(upstream, extra + [c]) <==>
      Displaced(upstream, extra) || (!Stripped(c) && c !in upstream && c !in extra && exists x :: x in extra && Stripped(x))
  {
    hide Stripped;
    var t, n := extra + [c], |extra|;
    if Displaced(upstream, extra) {
      var k, j :| 0 <= k < j < n && Stripped(extra[k]) && IsNew(upstream, extra, k, j);
      assert t[..k] == extra[..k] && t[k] == extra[k] && t[j] == extra[j];
      assert IsNew(upstream, t, k, j);
    }
    if !Stripped(c) && c !in upstream && c !in extra {
      if x :| x in extra && Stripped(x) {
        var k :| 0 <= k < n && extra[k] == x;
        assert t[k] == x && t[..k] == extra[..k] && t[n] == c;
        assert forall q :: q in extra[..k] ==> q in extra;
        assert IsNew(upstream, t, k, n);
      }
    }
    if Displaced(upstream, t) {
      var k, j :| 0 <= k < j < |t| && Stripped(t[k]) && IsNew(upstream, t, k, j);
      assert t[..k] == extra[..k] && t[k] == extra[k] && extra[k] in extra;
      if j < n {
        assert IsNew(upstream, extra, k, j);
      } else if c in extra {
        var q :| 0 <= q < n && extra[q] == c;
        assert forall r :: 0 <= r < k ==> extra[..k][r] == extra[r];
        assert IsNew(upstream, extra, k, q);
      }
    }
  }

  /** What merging the merged list again gives. */
  lemma V0CapsAgain(upstream: seq<string>, extra: seq<string>)
    ensures var caps := V0Caps(upstream, extra);
      V0Caps(caps, extra) == Strip(caps) + OnlyStripped(caps)
  {
    hide Merge, Strip, Stripped, OnlyStripped;
    var caps, base := V0Caps(upstream, extra), Merge([], Strip(upstream));
    StripMembers(upstream);
    MergeFacts([], Strip(upstream));
    MergeFacts(base, extra);
    StripMembers(caps);
    StripDistinct(caps);
    assert [] + Strip(caps) == Strip(caps);
    MergeFresh([], Strip(caps));
    MergeAgain(base, extra, |extra|, Strip(caps));
    assert extra[..|extra|] == extra;
  }

  /**
   * Merging the merged list with the same extra capabilities again changes nothing iff no honourable
   * capability is new in the extra list after one that is not honourable.
   */
  lemma V0CapsIdempotent(upstream: seq<string>, extra: seq<string>)
    ensures var caps := V0Caps(upstream, extra);
      V0Caps(caps, extra) == caps <==> !Displaced(upstream, extra)
  {
    hide Merge, Strip, Stripped, OnlyStripped, Mixed, Displaced;
    var caps, base := V0Caps(upstream, extra), Merge([], Strip(upstream));
    V0CapsAgain(upstream, extra);
    Partition(caps);
    StripMembers(upstream);
    MergeFacts([], Strip(upstream));
    MergeMixes(upstream, base, extra, |extra|);
    assert extra[..|extra|] == extra;
  }

  /** The shortest input that is displaced: an extra `no-done` and a new capability behind it. */
  lemma NoDoneMoves(other: string)
    requires !Stripped(other)
    ensures var extra := ["no-done", other];
      Displaced([], extra) && V0Caps([], extra) == extra && V0Caps(extra, extra) == [other, "no-done"]
  {
    var extra := ["no-done", other];
    assert Stripped("no-done");
    hide Stripped;
    assert extra[0] == "no-done" && extra[1] == other && extra[..0] == [] && extra[..1] == ["no-done"];
    assert IsNew([], extra, 0, 1);
    assert Strip(extra[..1]) == [];
    assert Strip(extra) == [other];
    assert Merge([], extra[..1]) == ["no-done"];
    assert Merge([], []) == [] && [other][..0] == [];
    assert Merge([], [other]) == [other];
    assert Merge([other], extra[..1]) == [other, "no-done"];
  }

  // ------------------------------------------------------------------- printing

  function CapsText(caps: seq<string>): string {
    [NUL] + Join(caps, ' ') + "\n"
  }

  function RefLine(r: Ref): string {
    r.hash + " " + r.name
  }

  /** The one line of an empty repository. */
  function EmptyLine(caps: seq<string>): string {
    Repeat('0', 40) + " capabilities^{}" + CapsText(caps)
  }

  /** The lines of the ref section, before packet framing. */
  function RefLines(refs: seq<Ref>, caps: seq<string>): seq<string> {
    if refs == [] then [EmptyLine(caps)]
    else seq(|refs|, i requires 0 <= i < |refs| => RefLine(refs[i]) + if i == 0 then CapsText(caps) else "\n")
  }

  /** The form the SSH protocol carries. */
  function RawForm(refs: seq<Ref>, caps: seq<string>): string
    requires Fit(RefLines(refs, caps))
  {
    Pkts(RefLines(refs, caps)) + "0000"
  }

  function Banner(service: string): string {
    "# service=" + service + "\n"
  }

  predicate V0Fits(adv: Advertisement, extra: seq<string>) {
    |Banner(adv.service)| <= MAX_PAYLOAD && Fit(RefLines(adv.refs, V0Caps(adv.caps, extra)))
  }

  /** The smart-HTTP form: the banner and a flush, then the raw form. */
  function V0Form(adv: Advertisement, extra: seq<string>): string
    requires V0Fits(adv, extra)
  {
    Pkt(Banner(adv.service)) + "0000" + RawForm(adv.refs, V0Caps(adv.caps, extra))
  }

  /** What has been sent when the first `i` lines of the ref section are out, behind `head`. */
  function Sent(head: string, lines: seq<string>, i: nat): string
    requires i <= |lines| && Fit(lines[..i])
  {
    head + Pkts(lines[..i])
  }

  lemma NothingSent(head: string, lines: seq<string>)
    ensures Fit(lines[..0]) && Sent(head, lines, 0) == head
  {
    hide Pkt;
  }

  lemma LineSent(head: string, lines: seq<string>, i: nat)
    requires i < |lines| && Fit(lines[..i]) && |lines[i]| <= MAX_PAYLOAD
    ensures Fit(lines[..i + 1]) && Sent(head, lines, i + 1) == Sent(head, lines, i) + Pkt(lines[i])
  {
    hide Pkt;
    assert lines[..i + 1][..i] == lines[..i] && lines[..i + 1][i] == lines[i];
    assert head + (Pkts(lines[..i]) + Pkt(lines[i])) == (head + Pkts(lines[..i])) + Pkt(lines[i]);
  }

  lemma SentIsPrefix(head: string, lines: seq<string>, i: nat)
    requires i <= |lines| && Fit(lines)
    ensures Fit(lines[..i]) && Sent(head, lines, i) <= head + (Pkts(lines) + "0000")
  {
    hide Pkt, Pkts;
    PktsPrefix(lines, i);
    PrefixBehind(head, Pkts(lines[..i]), Pkts(lines), "0000");
  }

  lemma PrefixBehind(head: string, a: string, b: string, tail: string)
    requires a <= b
    ensures head + a <= head + (b + tail)
  {
    assert (b + tail)[..|a|] == a;
    assert (head + (b + tail))[..|head + a|] == head + a;
  }

  /** `s` went out behind `before`, on a writer with `room`. */
  predicate Under(out: string, left: nat, before: string, room: nat, s: string) {
    out == before + s && |s| <= room && left == room - |s|
  }

  /** The writer failed within `s`. */
  predicate Cut(out: string, left: nat, before: string, room: nat, s: string) {
    room < |s| && out == before + s[..room] && left == 0
  }

  predicate Outcome(ok: bool, out: string, left: nat, before: string, room: nat, s: string) {
    if ok then Under(out, left, before, room, s) else Cut(out, left, before, room, s)
  }

  /** One more write. */
  lemma Behind(ok: bool, out: string, left: nat, mid: string, midLeft: nat, before: string, room: nat, done: string, part: string)
    requires Under(mid, midLeft, before, room, done) && Outcome(ok, out, left, mid, midLeft, part)
    ensures Outcome(ok, out, left, before, room, done + part)
  {
    assert (before + done) + part == before + (done + part);
    if !ok {
      assert (done + part)[..room] == done + part[..midLeft];
    }
  }

  lemma CutExtends(out: string, left: nat, before: string, room: nat, s: string, whole: string)
    requires Cut(out, left, before, room, s) && s <= whole
    ensures Cut(out, left, before, room, whole)
  {
    assert whole[..room] == s[..room];
  }

  function RefSection(head: string, lines: seq<string>): string
    requires Fit(lines)
  {
    head + (Pkts(lines) + "0000")
  }

  /** After one line of the ref section: one line further, or the whole text cut short. */
  lemma AfterLine(ok: bool, out: string, left: nat, mid: string, midLeft: nat, before: string, room: nat,
                  head: string, lines: seq<string>, i: nat)
    requires i < |lines| && Fit(lines[..i]) && Under(mid, midLeft, before, room, Sent(head, lines, i))
    requires |lines[i]| > MAX_PAYLOAD ==> !ok
    requires |lines[i]| <= MAX_PAYLOAD ==> Outcome(ok, out, left, mid, midLeft, Pkt(lines[i]))
    ensures ok ==> Fit(lines[..i + 1]) && Under(out, left, before, room, Sent(head, lines, i + 1))
    ensures !ok && Fit(lines) ==> Cut(out, left, before, room, RefSection(head, lines))
  {
    hide Pkt, Pkts, Sent, Under, Cut;
    if |lines[i]| <= MAX_PAYLOAD {
      LineSent(head, lines, i);
      Behind(ok, out, left, mid, midLeft, before, room, Sent(head, lines, i), Pkt(lines[i]));
      if !ok && Fit(lines) {
        SentIsPrefix(head, lines, i + 1);
        CutExtends(out, left, before, room, Sent(head, lines, i + 1), RefSection(head, lines));
      }
    }
  }

  /** After the flush that ends the ref section. */
  lemma AfterEnd(ok: bool, out: string, left: nat, mid: string, midLeft: nat, before: string, room: nat,
                 head: string, lines: seq<string>)
    requires Fit(lines) && lines[..|lines|] == lines
    requires Under(mid, midLeft, before, room, Sent(head, lines, |lines|)) && Outcome(ok, out, left, mid, midLeft, "0000")
    ensures Outcome(ok, out, left, before, room, RefSection(head, lines))
  {
    hide Pkt, Pkts, Under, Cut, Fit;
    Behind(ok, out, left, mid, midLeft, before, room, Sent(head, lines, |lines|), "0000");
    assert (head + Pkts(lines)) + "0000" == head + (Pkts(lines) + "0000");
  }

  lemma LineAt(refs: seq<Ref>, caps: seq<string>, i: nat)
    ensures refs == [] ==> RefLines(refs, caps) == [EmptyLine(caps)]
    ensures refs != [] ==> |RefLines(refs, caps)| == |refs|
    ensures i < |refs| ==> RefLines(refs, caps)[i] == RefLine(refs[i]) + if i == 0 then CapsText(caps) else "\n"
  {
    hide CapsText;
  }

  /** Writes the ref section; a line too long for a packet is an error. */
  method EmitRefAdvertisementRaw(w: Sink, adv: Advertisement, extra: seq<string>) returns (ok: bool)
    modifies w
    ensures var lines := RefLines(adv.refs, V0Caps(adv.caps, extra));
      && (Fit(lines) ==> Wrote(w, RawForm(adv.refs, V0Caps(adv.caps, extra)), ok))
      && (!Fit(lines) ==> !ok)
  {
    hide V0Caps, CapsText, EmptyLine, Pkt, Pkts, Fit, Sent, RefLine, RefLines;
    ghost var before, room := w.out, w.room;
    var caps := BuildV0Caps(adv.caps, extra);
    ghost var lines := RefLines(adv.refs, caps);
    ghost var mid, left := w.out, w.room;
    NothingSent("", lines);
    LineAt(adv.refs, caps, 0);
    if Fit(lines) {
      assert RefSection("", lines) == RawForm(adv.refs, caps);
    }
    if adv.refs == [] {
      ok := Encode(w, EmptyLine(caps));
      AfterLine(ok, w.out, w.room, mid, left, before, room, "", lines, 0);
      if !ok {
        return;
      }
    } else {
      for i := 0 to |adv.refs|
        invariant Fit(lines[..i]) && Under(w.out, w.room, before, room, Sent("", lines, i))
      {
        LineAt(adv.refs, caps, i);
        mid, left := w.out, w.room;
        var line := RefLine(adv.refs[i]) + (if i == 0 then CapsText(caps) else "\n");
        ok := Encode(w, line);
        AfterLine(ok, w.out, w.room, mid, left, before, room, "", lines, i);
        if !ok {
          return;
        }
      }
    }
    assert lines[..|lines|] == lines;
    mid, left := w.out, w.room;
    ok := Flush(w);
    AfterEnd(ok, w.out, w.room, mid, left, before, room, "", lines);
  }

  lemma BannerIsFront(adv: Advertisement, extra: seq<string>)
    requires |Banner(adv.service)| <= MAX_PAYLOAD
    ensures var b := Pkt(Banner(adv.service));
      V0Fits(adv, extra) ==>
        && b <= V0Form(adv, extra) && b + "0000" <= V0Form(adv, extra)
        && V0Form(adv, extra) == RefSection(b + "0000", RefLines(adv.refs, V0Caps(adv.caps, extra)))
  {
    hide Pkt, Pkts, Fit, Banner, RefLines, V0Caps;
    if V0Fits(adv, extra) {
      var b := Pkt(Banner(adv.service));
      var raw := RawForm(adv.refs, V0Caps(adv.caps, extra));
      assert (b + "0000" + raw)[..|b|] == b && (b + "0000" + raw)[..|b + "0000"|] == b + "0000";
    }
  }

  /** Writes the banner, a flush and the ref section, with a loop of its own over the refs. */
  method EmitRefAdvertisementV0(w: Sink, adv: Advertisement, extra: seq<string>) returns (ok: bool)
    modifies w
    ensures V0Fits(adv, extra) ==> Wrote(w, V0Form(adv, extra), ok)
    ensures !V0Fits(adv, extra) ==> !ok
  {
    hide V0Caps, CapsText, EmptyLine, Banner, Pkt, Pkts, Fit, Sent, RefLine, RefLines;
    ghost var before, room, all := w.out, w.room, V0Caps(adv.caps, extra);
    ghost var mid, left := w.out, w.room;
    ok := Encode(w, Banner(adv.service));
    if |Banner(adv.service)| > MAX_PAYLOAD {
      return;
    }
    ghost var banner := Pkt(Banner(adv.service));
    BannerIsFront(adv, extra);
    if !ok {
      if V0Fits(adv, extra) {
        CutExtends(w.out, w.room, before, room, banner, V0Form(adv, extra));
      }
      return;
    }
    mid, left := w.out, w.room;
    ok := Flush(w);
    Behind(ok, w.out, w.room, mid, left, before, room, banner, "0000");
    if !ok {
      if V0Fits(adv, extra) {
        CutExtends(w.out, w.room, before, room, banner + "0000", V0Form(adv, extra));
      }
      return;
    }
    ghost var head := banner + "0000";
    var caps := BuildV0Caps(adv.caps, extra);
    ghost var lines := RefLines(adv.refs, caps);
    NothingSent(head, lines);
    LineAt(adv.refs, caps, 0);
    if adv.refs == [] {
      mid, left := w.out, w.room;
      ok := Encode(w, EmptyLine(caps));
      AfterLine(ok, w.out, w.room, mid, left, before, room, head, lines, 0);
      if !ok {
        return;
      }
    } else {
      for i := 0 to |adv.refs|
        invariant Fit(lines[..i]) && Under(w.out, w.room, before, room, Sent(head, lines, i))
      {
        LineAt(adv.refs, caps, i);
        mid, left := w.out, w.room;
        var line := RefLine(adv.refs[i]) + (if i == 0 then CapsText(caps) else "\n");
        ok := Encode(w, line);
        AfterLine(ok, w.out, w.room, mid, left, before, room, head, lines, i);
        if !ok {
          return;
        }
      }
    }
    assert lines[..|lines|] == lines;
    mid, left := w.out, w.room;
    ok := Flush(w);
    AfterEnd(ok, w.out, w.room, mid, left, before, room, head, lines);
  }

  // -------------------------------------------------------------------- parsing

  function ParseService(b: string): Option<string> {
    var s := TrimRight(b, '\n');
    if !("# service=" <= s) then None
    else
      var service := TrimSpace(s[10..]);
      if service == "" then None else Some(service)
  }

  /** A ref line; the second component is empty when no capabilities were present. */
  function ParseRef(b: string): Option<(Ref, seq<string>)> {
    var i := IndexOf(b, NUL);
    var caps := if i < |b| then Fields(TrimRight(b[i + 1..], '\n')) else [];
    var line := TrimRight(b[..i], '\n');
    var j := IndexOf(line, ' ');
    if j == |line| then None else Some((Ref(line[..j], line[j + 1..]), caps))
  }

  /** The ref section up to its flush, the refs and capabilities read so far in `adv`. */
  function ParseRefs(s: string, fails: bool, adv: Advertisement): Option<Advertisement>
    decreases |s|
  {
    match Next(s, fails)
    case Packet(m, payload, size) =>
      if m.FlushPkt? then Some(adv)
      else if !m.Data? then ParseRefs(s[size..], fails, adv)
      else
        (match ParseRef(payload)
         case None => None
         case Some((r, caps)) => ParseRefs(s[size..], fails, WithRef(adv, r, caps)))
    case Bad(_, _) => None
    case _ => Some(adv)
  }

  function WithRef(adv: Advertisement, r: Ref, caps: seq<string>): Advertisement {
    adv.(refs := adv.refs + [r], caps := if caps == [] then adv.caps else caps)
  }

  function ParseSpec(s: string, fails: bool): Option<Advertisement> {
    match Next(s, fails)
    case Packet(Data, payload, size) =>
      (match (ParseService(payload), Next(s[size..], fails))
       case (Some(service), Packet(FlushPkt, _, size')) =>
         ParseRefs(s[size..][size'..], fails, Advertisement(service, [], []))
       case _ => None)
    case _ => None
  }

  method ParseRefAdvertisement(r: Source) returns (parsed: Option<Advertisement>)
    modifies r
    ensures parsed == ParseSpec(old(r.rest), r.fails)
  {
    hide HexValue, HexDigit, ParseService, ParseRef;
    var s := new Scanner(r);
    var more := s.Scan();
    if !more || !s.marker.Data? {
      return None;
    }
    var service := ParseService(s.payload);
    if service.None? {
      return None;
    }
    more := s.Scan();
    if !more || !s.marker.FlushPkt? {
      return None;
    }
    var adv := Advertisement(service.value, [], []);
    while true
      invariant s.r == r && fresh(s) && s.err == None
      invariant ParseRefs(r.rest, r.fails, adv) == ParseSpec(old(r.rest), r.fails)
      decreases |r.rest|
    {
      more := s.Scan();
      if !more || s.marker.FlushPkt? {
        break;
      }
      if !s.marker.Data? {
        continue;
      }
      match ParseRef(s.payload) {
        case None =>
          return None;
        case Some((ref, caps)) =>
          adv := WithRef(adv, ref, caps);
      }
    }
    parsed := if s.err.Some? then None else Some(adv);
  }

  // ----------------------------------------------------------------- round trip

  predicate Wellformed(adv: Advertisement, extra: seq<string>) {
    && IsWord(adv.service)
    && adv.refs != [] && (forall r :: r in adv.refs ==> IsToken(r.hash) && IsToken(r.name))
    && (forall c :: c in V0Caps(adv.caps, extra) ==> IsToken(c))
  }

  lemma ServiceSurvives(service: string)
    requires IsWord(service)
    ensures ParseService(Banner(service)) == Some(service)
  {
    var s := "# service=" + service;
    assert s[|s| - 1] == service[|service| - 1] && service[|service| - 1] in service;
    TrimRightKeeps(s, '\n', 1);
    assert Banner(service) == s + Repeat('\n', 1);
    assert s[10..] == service;
    TrimSpaceWord(service);
  }

  lemma CapsSurvive(caps: seq<string>)
    requires forall c :: c in caps ==> IsToken(c)
    ensures Fields(TrimRight(Join(caps, ' ') + "\n", '\n')) == caps
  {
    var line := Join(caps, ' ');
    assert line + "\n" == line + Repeat('\n', 1);
    if caps != [] {
      forall c | c in caps ensures c != "" && c[|c| - 1] != '\n' {
        assert c[|c| - 1] in c;
      }
      JoinEnds(caps, ' ', '\n');
    }
    TrimRightKeeps(line, '\n', 1);
    FieldsJoin(caps);
  }

  lemma RefFacts(r: Ref)
    requires IsToken(r.hash) && IsToken(r.name)
    ensures NUL !in RefLine(r)
    ensures IndexOf(RefLine(r), ' ') == |r.hash| && RefLine(r)[..|r.hash|] == r.hash && RefLine(r)[|r.hash| + 1..] == r.name
    ensures RefLine(r)[|RefLine(r)| - 1] != '\n'
  {
    assert r.name[|r.name| - 1] in r.name;
    assert ' ' !in r.hash;
    assert RefLine(r) == r.hash + [' '] + r.name;
    IndexAfter(r.hash, ' ', r.name);
  }

  lemma FirstRefSurvives(r: Ref, caps: seq<string>)
    requires IsToken(r.hash) && IsToken(r.name) && forall c :: c in caps ==> IsToken(c)
    ensures ParseRef(RefLine(r) + CapsText(caps)) == Some((r, caps))
  {
    hide IsWord, Fields, Join;
    RefFacts(r);
    var line, tail := RefLine(r), Join(caps, ' ') + "\n";
    var b := line + CapsText(caps);
    assert b == line + [NUL] + tail;
    IndexAfter(line, NUL, tail);
    assert b[..|line|] == line && b[|line| + 1..] == tail;
    CapsSurvive(caps);
    TrimRightKeeps(line, '\n', 0);
    assert line + Repeat('\n', 0) == line;
  }

  lemma LaterRefSurvives(r: Ref)
    requires IsToken(r.hash) && IsToken(r.name)
    ensures ParseRef(RefLine(r) + "\n") == Some((r, []))
  {
    hide IsWord, Fields, Join;
    RefFacts(r);
    var line := RefLine(r);
    var b := line + "\n";
    assert NUL !in b;
    assert IndexOf(b, NUL) == |b| && b[..|b|] == b;
    assert b == line + Repeat('\n', 1);
    TrimRightKeeps(line, '\n', 1);
  }

  lemma ParseStep(line: string, rest: string, fails: bool, adv: Advertisement, r: Ref, caps: seq<string>)
    requires 0 < |line| <= MAX_PAYLOAD && ParseRef(line) == Some((r, caps))
    ensures ParseRefs(Pkt(line) + rest, fails, adv) == ParseRefs(rest, fails, WithRef(adv, r, caps))
  {
    hide HexValue, ParseRef;
    ScanInvertsEncode(line, rest, fails);
    AfterPkt(line, rest);
  }

  lemma ParseEnd(tail: string, fails: bool, adv: Advertisement)
    ensures ParseRefs("0000" + tail, fails, adv) == Some(adv)
  {
    hide HexValue, ParseRef;
    assert Pkt("") == "0000";
    ScanInvertsEncode("", tail, fails);
  }

  lemma {:induction false} LaterRefsSurvive(refs: seq<Ref>, lines: seq<string>, tail: string, fails: bool, adv: Advertisement)
    requires |refs| == |lines| && Fit(lines)
    requires forall i :: 0 <= i < |refs| ==> IsToken(refs[i].hash) && IsToken(refs[i].name) && lines[i] == RefLine(refs[i]) + "\n"
    ensures ParseRefs(PktsFrom(lines) + ("0000" + tail), fails, adv) == Some(adv.(refs := adv.refs + refs))
    decreases |refs|
  {
    hide ParseRef, ParseRefs, Pkt, IsToken;
    if refs == [] {
      assert "" + ("0000" + tail) == "0000" + tail;
      ParseEnd(tail, fails, adv);
      assert adv.refs + refs == adv.refs;
    } else {
      LaterRefSurvives(refs[0]);
      var rest := PktsFrom(lines[1..]) + ("0000" + tail);
      assert PktsFrom(lines) + ("0000" + tail) == Pkt(lines[0]) + rest;
      ParseStep(lines[0], rest, fails, adv, refs[0], []);
      LaterRefsSurvive(refs[1..], lines[1..], tail, fails, WithRef(adv, refs[0], []));
      assert adv.refs + [refs[0]] + refs[1..] == adv.refs + refs;
    }
  }

  lemma RefsSurvive(refs: seq<Ref>, caps: seq<string>, service: string, tail: string, fails: bool)
    requires refs != [] && (forall r :: r in refs ==> IsToken(r.hash) && IsToken(r.name))
    requires (forall c :: c in caps ==> IsToken(c)) && Fit(RefLines(refs, caps))
    ensures ParseRefs(RawForm(refs, caps) + tail, fails, Advertisement(service, [], [])) == Some(Advertisement(service, refs, caps))
  {
    hide ParseRef, ParseRefs, Pkt, IsToken, CapsText;
    var lines := RefLines(refs, caps);
    assert forall i :: 0 <= i < |refs| ==> refs[i] in refs;
    PktsAreFront(lines);
    FirstRefSurvives(refs[0], caps);
    var rest := PktsFrom(lines[1..]) + ("0000" + tail);
    assert RawForm(refs, caps) + tail == Pkt(lines[0]) + rest;
    var first := WithRef(Advertisement(service, [], []), refs[0], caps);
    ParseStep(lines[0], rest, fails, Advertisement(service, [], []), refs[0], caps);
    LaterRefsSurvive(refs[1..], lines[1..], tail, fails, first);
    assert [] + [refs[0]] + refs[1..] == refs;
  }

  /**
   * Parsing an emitted v0 advertisement with at least one ref gives the same service and refs, and
   * the merged capabilities.
   */
  lemma AdvertisementRoundTrip(adv: Advertisement, extra: seq<string>, fails: bool)
    requires V0Fits(adv, extra) && Wellformed(adv, extra)
    ensures ParseSpec(V0Form(adv, extra), fails) == Some(adv.(caps := V0Caps(adv.caps, extra)))
  {
    hide V0Caps, ParseRefs, ParseService, RawForm, HexValue, IsToken, RefLines, Fit;
    var caps := V0Caps(adv.caps, extra);
    var raw := RawForm(adv.refs, caps);
    ServiceSurvives(adv.service);
    ScanInvertsEncode(Banner(adv.service), "0000" + raw, fails);
    AfterPkt(Banner(adv.service), "0000" + raw);
    assert V0Form(adv, extra) == Pkt(Banner(adv.service)) + ("0000" + raw);
    assert Pkt("") == "0000";
    ScanInvertsEncode("", raw, fails);
    assert ("0000" + raw)[4..] == raw;
    assert raw + "" == raw;
    RefsSurvive(adv.refs, caps, adv.service, "", fails);
  }

  /** A ref line without a space before its NUL is no ref, and the advertisement is refused. */
  lemma BadRefIsRefused(line: string, rest: string, fails: bool, adv: Advertisement)
    requires 0 < |line| <= MAX_PAYLOAD && ' ' !in TrimRight(line[..IndexOf(line, NUL)], '\n')
    ensures ParseRefs(Pkt(line) + rest, fails, adv) == None
  {
    assert ParseRef(line) == None by {
      hide IndexOf, TrimRight, Fields;
    }
    hide HexValue, ParseRef, Pkt;
    ScanInvertsEncode(line, rest, fails);
  }

  /** So is one whose first packet is no banner, or a banner without a service. */
  lemma BadBannerIsRefused(line: string, rest: string, fails: bool)
    requires 0 < |line| <= MAX_PAYLOAD
    requires var s := TrimRight(line, '\n'); |s| < 10 || s[..10] != "# service=" || IsBlank(s[10..])
    ensures ParseSpec(Pkt(line) + rest, fails) == None
  {
    assert ParseService(line) == None by {
      var s := TrimRight(line, '\n');
      if |s| >= 10 && IsBlank(s[10..]) {
        TrimSpacePadded(s[10..], "", "");
        assert s[10..] + "" + "" == s[10..];
      }
    }
    hide HexValue, ParseService, Pkt;
    ScanInvertsEncode(line, rest, fails);
  }

  /** An empty repository parses to one pseudo-ref, which carries the capabilities. */
  lemma EmptyRepositoryRoundTrip(adv: Advertisement, extra: seq<string>, fails: bool)
    requires V0Fits(adv, extra) && IsWord(adv.service) && adv.refs == []
    requires forall c :: c in V0Caps(adv.caps, extra) ==> IsToken(c)
    ensures ParseSpec(V0Form(adv, extra), fails)
      == Some(Advertisement(adv.service, [Ref(ZERO_OID, "capabilities^{}")], V0Caps(adv.caps, extra)))
  {
    hide V0Caps, ParseSpec, CapsText;
    var pseudo := Ref(ZERO_OID, "capabilities^{}");
    var shown := adv.(refs := [pseudo]);
    var caps := V0Caps(adv.caps, extra);
    assert RefLines([pseudo], caps) == [RefLine(pseudo) + CapsText(caps)];
    assert RefLine(pseudo) == ZERO_OID + " capabilities^{}" by {
      assert " " + "capabilities^{}" == " capabilities^{}";
    }
    assert RefLines([pseudo], caps) == RefLines([], caps);
    assert V0Form(shown, extra) == V0Form(adv, extra);
    PseudoRefIsWritable();
    AdvertisementRoundTrip(shown, extra, fails);
  }

  lemma PseudoRefIsWritable()
    ensures IsToken(ZERO_OID) && IsToken("capabilities^{}")
  {
  }

  // ------------------------------------------------- parsing, then emitting again

  function TotalLength(ps: seq<string>): nat {
    if ps == [] then 0 else TotalLength(ps[..|ps| - 1]) + |ps[|ps| - 1]|
  }

  lemma {:induction false} TotalConcat(a: seq<string>, b: seq<string>)
    ensures TotalLength(a + b) == TotalLength(a) + TotalLength(b)
    decreases |b|
  {
    if b == [] {
      assert a + b == a;
    } else {
      assert (a + b)[..|a + b| - 1] == a + b[..|b| - 1];
      TotalConcat(a, b[..|b| - 1]);
    }
  }

  lemma {:induction false} JoinLength(ps: seq<string>, c: char)
    ensures |Join(ps, c)| == TotalLength(ps) + if ps == [] then 0 else |ps| - 1
  {
    if |ps| == 1 {
      assert ps[..0] == [];
    } else if |ps| > 1 {
      JoinLength(ps[1..], c);
      TotalConcat([ps[0]], ps[1..]);
      assert [ps[0]] + ps[1..] == ps && [ps[0]][..0] == [];
    }
  }

  lemma {:induction false} PartsLength(m: seq<string>)
    ensures |Strip(m) + OnlyStripped(m)| == |m| && TotalLength(Strip(m) + OnlyStripped(m)) == TotalLength(m)
  {
    hide Stripped, Strip, OnlyStripped;
    if m == [] {
      EmptyParts();
    } else {
      var n := |m| - 1;
      var c, a, b := m[n], Strip(m[..n]), OnlyStripped(m[..n]);
      assert m == m[..n] + [c];
      PartsLength(m[..n]);
      PartsAppend(m[..n], c);
      TotalConcat(a, b);
      TotalConcat(a, [c]);
      TotalConcat(b, [c]);
      TotalConcat(a + [c], b);
      TotalConcat(a, b + [c]);
      TotalConcat(m[..n], [c]);
    }
  }

  lemma SameLengthFits(refs: seq<Ref>, a: seq<string>, b: seq<string>)
    requires |CapsText(a)| == |CapsText(b)| && Fit(RefLines(refs, a))
    ensures Fit(RefLines(refs, b))
  {
    hide CapsText, RefLine;
    forall i | 0 <= i < |RefLines(refs, b)| ensures |RefLines(refs, b)[i]| <= MAX_PAYLOAD {
      assert |RefLines(refs, a)[i]| == |RefLines(refs, b)[i]|;
    }
  }

  /** An advertisement that fits still fits after parsing and merging again. */
  lemma ReemissionFits(adv: Advertisement, extra: seq<string>)
    requires V0Fits(adv, extra)
    ensures V0Fits(adv.(caps := V0Caps(adv.caps, extra)), extra)
  {
    hide V0Caps, Strip, OnlyStripped, Join, TotalLength, RefLines, Fit;
    var caps := V0Caps(adv.caps, extra);
    V0CapsAgain(adv.caps, extra);
    PartsLength(caps);
    JoinLength(caps, ' ');
    JoinLength(V0Caps(caps, extra), ' ');
    SameLengthFits(adv.refs, caps, V0Caps(caps, extra));
  }

  /**
   * Parse an emitted advertisement and emit it again with the same extra capabilities: the bytes are
   * the same iff no extra capability is displaced.
   */
  lemma ReemissionIsIdentical(adv: Advertisement, extra: seq<string>, fails: bool)
    requires V0Fits(adv, extra) && Wellformed(adv, extra)
    ensures var parsed := ParseSpec(V0Form(adv, extra), fails);
      && parsed.Some? && V0Fits(parsed.value, extra)
      && (V0Form(parsed.value, extra) == V0Form(adv, extra) <==> !Displaced(adv.caps, extra))
  {
    hide V0Caps, V0Fits, V0Form, ParseSpec, IsToken, Displaced;
    var caps := V0Caps(adv.caps, extra);
    var again := adv.(caps := caps);
    AdvertisementRoundTrip(adv, extra, fails);
    ReemissionFits(adv, extra);
    V0CapsMembers(adv.caps, extra);
    V0CapsMembers(caps, extra);
    AdvertisementRoundTrip(again, extra, fails);
    V0CapsIdempotent(adv.caps, extra);
    if V0Caps(caps, extra) == caps {
      SameCapsSameForm(adv, again, extra);
    }
  }

  lemma SameCapsSameForm(a: Advertisement, b: Advertisement, extra: seq<string>)
    requires a.service == b.service && a.refs == b.refs && V0Caps(a.caps, extra) == V0Caps(b.caps, extra)
    requires V0Fits(a, extra) && V0Fits(b, extra)
    ensures V0Form(a, extra) == V0Form(b, extra)
  {
    hide V0Caps;
  }
}
