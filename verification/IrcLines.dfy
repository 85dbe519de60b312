/** The IRC window's reassembly of lines from TCP segments. */
module IrcLines {
  import opened Bytes

  const LF: u8 := 0x0a
  const CR: u8 := 0x0d
  const LINE_CAP: nat := 512

  // ---- the reference: a byte stream cut at LF --------------------------------

  /** Finished lines and the unfinished tail. */
  datatype Cut = Cut(lines: seq<seq<u8>>, tail: seq<u8>)

  function Line(l: seq<u8>): seq<seq<u8>> {
    if l == [] then [] else [l]
  }

  /** The stream s after an unfinished line p: CR removed, split at LF, empty lines dropped. */
  function CutFrom(p: seq<u8>, s: seq<u8>): Cut
    decreases |s|
  {
    if s == [] then Cut([], p)
    else if s[0] == LF then
      var c := CutFrom([], s[1..]);
      Cut(Line(p) + c.lines, c.tail)
    else if s[0] == CR then CutFrom(p, s[1..])
    else CutFrom(p + [s[0]], s[1..])
  }

  /** Every finished line has at most 511 characters (section 2.3 of RFC 1459 allows 510). */
  ghost predicate Fits(lines: seq<seq<u8>>) {
    forall k :: 0 <= k < |lines| ==> |lines[k]| < LINE_CAP
  }

  lemma {:induction false} CutAppend(p: seq<u8>, s: seq<u8>, t: seq<u8>)
    ensures var a := CutFrom(p, s);
            var b := CutFrom(a.tail, t);
            CutFrom(p, s + t) == Cut(a.lines + b.lines, b.tail)
    decreases |s|
  {
    if s == [] {
      assert s + t == t;
      assert [] + CutFrom(p, t).lines == CutFrom(p, t).lines;
    } else {
      assert (s + t)[1..] == s[1..] + t;
      CutAppend(if s[0] == LF then [] else if s[0] == CR then p else p + [s[0]], s[1..], t);
      if s[0] == LF {
        var a := CutFrom([], s[1..]);
        var b := CutFrom(a.tail, t);
        assert Line(p) + (a.lines + b.lines) == Line(p) + a.lines + b.lines;
      }
    }
  }

  /** Without an LF no line finishes, and the tail only grows. */
  lemma {:induction false} NoLfNoLine(p: seq<u8>, s: seq<u8>)
    requires LF !in s
    ensures CutFrom(p, s).lines == [] && |CutFrom(p, s).tail| >= |p|
    decreases |s|
  {
    if s != [] {
      NoLfNoLine(if s[0] == CR then p else p + [s[0]], s[1..]);
    }
  }

  /** A tail that is already too long makes the next finished line too long. */
  lemma {:induction false} LongTailLongLine(p: seq<u8>, s: seq<u8>)
    requires |p| >= LINE_CAP && LF in s
    ensures !Fits(CutFrom(p, s).lines)
    decreases |s|
  {
    if s[0] == LF {
      assert CutFrom(p, s).lines[0] == p;
    } else {
      LongTailLongLine(if s[0] == CR then p else p + [s[0]], s[1..]);
    }
  }

  // ---- what the code computes for one segment ----------------------------------

  /** The inner loop: the line buffer when it stops, what is left of the segment, whether an LF was met. */
  function Scan(p: seq<u8>, s: seq<u8>): (r: (seq<u8>, seq<u8>, bool))
    ensures |r.1| <= |s| && (r.2 ==> |r.1| < |s| && |r.0| < LINE_CAP)
    ensures !r.2 && r.1 != [] ==> |r.0| >= LINE_CAP
    decreases |s|
  {
    if s == [] || |p| >= LINE_CAP then (p, s, false)
    else if s[0] == LF then (p, s[1..], true)
    else if s[0] == CR then Scan(p, s[1..])
    else Scan(p + [s[0]], s[1..])
  }

  /** Past the next LF, or to the end of the segment. */
  function Resync(s: seq<u8>): (r: seq<u8>)
    ensures |r| <= |s| && (s != [] ==> |r| < |s|)
    ensures LF !in s ==> r == []
  {
    if s == [] then [] else if s[0] == LF then s[1..] else Resync(s[1..])
  }

  /** Lines handed to processLine, and the partial line carried to the next segment. */
  function Segment(p: seq<u8>, s: seq<u8>): (r: (seq<seq<u8>>, seq<u8>))
    ensures |p| <= LINE_CAP ==> |r.1| <= LINE_CAP
    decreases |s|
  {
    if s == [] then ([], p)
    else
      var (l, rest, hit) := Scan(p, s);
      ScanBound(p, s);
      if hit then
        var (ls, c) := Segment([], rest);
        (Line(l) + ls, c)
      else if rest != [] then Segment([], Resync(rest))
      else ([], l)
  }

  lemma {:induction false} ScanBound(p: seq<u8>, s: seq<u8>)
    ensures |p| <= LINE_CAP ==> |Scan(p, s).0| <= LINE_CAP
    decreases |s|
  {
    if s != [] && |p| < LINE_CAP && s[0] != LF {
      ScanBound(if s[0] == CR then p else p + [s[0]], s[1..]);
    }
  }

  /** processLine never sees more than 511 characters. */
  lemma {:induction false} SegmentLinesFit(p: seq<u8>, s: seq<u8>)
    ensures Fits(Segment(p, s).0)
    decreases |s|
  {
    if s != [] {
      var (l, rest, hit) := Scan(p, s);
      if hit {
        SegmentLinesFit([], rest);
      } else if rest != [] {
        SegmentLinesFit([], Resync(rest));
      }
    }
  }

  lemma {:induction false} ScanCuts(p: seq<u8>, s: seq<u8>)
    ensures var (l, rest, hit) := Scan(p, s);
            if hit then CutFrom(p, s) == Cut(Line(l) + CutFrom([], rest).lines, CutFrom([], rest).tail)
            else CutFrom(p, s) == CutFrom(l, rest)
    ensures LF !in s ==> !Scan(p, s).2 && LF !in Scan(p, s).1
    decreases |s|
  {
    if s != [] && |p| < LINE_CAP && s[0] != LF {
      ScanCuts(if s[0] == CR then p else p + [s[0]], s[1..]);
    }
  }

  lemma {:induction false} SegmentNoLf(p: seq<u8>, s: seq<u8>)
    requires LF !in s
    ensures Segment(p, s).0 == []
    decreases |s|
  {
    ScanCuts(p, s);
  }

  /** One segment, when every line it finishes fits: the lines are the reference's, and so is a tail that fits. */
  lemma {:induction false} SegmentCuts(p: seq<u8>, s: seq<u8>)
    requires Fits(CutFrom(p, s).lines) && |p| < LINE_CAP
    ensures Segment(p, s).0 == CutFrom(p, s).lines
    ensures |CutFrom(p, s).tail| < LINE_CAP ==> Segment(p, s).1 == CutFrom(p, s).tail
    decreases |s|
  {
    if s != [] {
      ScanCuts(p, s);
      var (l, rest, hit) := Scan(p, s);
      if hit {
        FitsRight(Line(l), CutFrom([], rest).lines);
        SegmentCuts([], rest);
      } else if rest != [] {
        if LF in rest {
          LongTailLongLine(l, rest);
          assert false;
        }
        NoLfNoLine(l, rest);
      }
    }
  }

  lemma FitsRight(a: seq<seq<u8>>, b: seq<seq<u8>>)
    requires Fits(a + b)
    ensures Fits(a) && Fits(b)
  {
    forall k | 0 <= k < |b| ensures |b[k]| < LINE_CAP {
      assert (a + b)[|a| + k] == b[k];
    }
    forall k | 0 <= k < |a| ensures |a[k]| < LINE_CAP {
      assert (a + b)[k] == a[k];
    }
  }

  // ---- any number of segments -----------------------------------------------------

  function Flatten(segs: seq<seq<u8>>): seq<u8> {
    if segs == [] then [] else segs[0] + Flatten(segs[1..])
  }

  /** All lines handed over during the segments, and the partial line after the last. */
  function Segments(p: seq<u8>, segs: seq<seq<u8>>): (seq<seq<u8>>, seq<u8>)
    decreases |segs|
  {
    if segs == [] then ([], p)
    else
      var (ls, c) := Segment(p, segs[0]);
      var (rest, d) := Segments(c, segs[1..]);
      (ls + rest, d)
  }

  lemma {:induction false} SegmentsNoLf(p: seq<u8>, segs: seq<seq<u8>>)
    requires LF !in Flatten(segs)
    ensures Segments(p, segs).0 == []
    decreases |segs|
  {
    if segs != [] {
      SegmentNoLf(p, segs[0]);
      SegmentsNoLf(Segment(p, segs[0]).1, segs[1..]);
    }
  }

  lemma {:induction false} SegmentsCut(p: seq<u8>, segs: seq<seq<u8>>)
    requires |p| < LINE_CAP && Fits(CutFrom(p, Flatten(segs)).lines)
    ensures Segments(p, segs).0 == CutFrom(p, Flatten(segs)).lines
    ensures |CutFrom(p, Flatten(segs)).tail| < LINE_CAP ==> Segments(p, segs).1 == CutFrom(p, Flatten(segs)).tail
    decreases |segs|
  {
    if segs != [] {
      var s, rest := segs[0], Flatten(segs[1..]);
      var a := CutFrom(p, s);
      CutAppend(p, s, rest);
      FitsRight(a.lines, CutFrom(a.tail, rest).lines);
      SegmentCuts(p, s);
      if |a.tail| < LINE_CAP {
        SegmentsCut(a.tail, segs[1..]);
      } else {
        if LF in rest {
          LongTailLongLine(a.tail, rest);
          assert false;
        }
        NoLfNoLine(a.tail, rest);
        SegmentsNoLf(Segment(p, s).1, segs[1..]);
      }
    }
  }

  lemma {:induction false} SegmentsFit(p: seq<u8>, segs: seq<seq<u8>>)
    ensures Fits(Segments(p, segs).0)
    decreases |segs|
  {
    if segs != [] {
      SegmentLinesFit(p, segs[0]);
      SegmentsFit(Segment(p, segs[0]).1, segs[1..]);
    }
  }

  /** Chunking invariance, exactly: however the stream is cut into segments, the lines handed to processLine are its
      lines if and only if no finished line exceeds 511 characters. */
  lemma ChunkingInvariance(segs: seq<seq<u8>>)
    ensures var lines := CutFrom([], Flatten(segs)).lines;
            Segments([], segs).0 == lines <==> forall k :: 0 <= k < |lines| ==> |lines[k]| <= 511
  {
    SegmentsFit([], segs);
    if Fits(CutFrom([], Flatten(segs)).lines) {
      SegmentsCut([], segs);
    }
  }

  /** The carried partial is exactly the unfinished tail. */
  lemma CarriedTail(segs: seq<seq<u8>>)
    requires Fits(CutFrom([], Flatten(segs)).lines) && |CutFrom([], Flatten(segs)).tail| < LINE_CAP
    ensures Segments([], segs) == (CutFrom([], Flatten(segs)).lines, CutFrom([], Flatten(segs)).tail)
  {
    SegmentsCut([], segs);
  }

  // ---- lines as a server sends them ------------------------------------------------

  /** A line without its carriage returns. */
  function Stripped(l: seq<u8>): seq<u8> {
    if l == [] then [] else (if l[0] == 0x0d then [] else [l[0]]) + Stripped(l[1..])
  }

  /** Lines on the wire, each ended by a line feed. */
  function Wire(raw: seq<seq<u8>>): seq<u8> {
    if raw == [] then [] else raw[0] + [0x0a] + Wire(raw[1..])
  }

  /** The lines that are not empty without their carriage returns. */
  function Texts(raw: seq<seq<u8>>): seq<seq<u8>> {
    if raw == [] then [] else (if Stripped(raw[0]) == [] then [] else [Stripped(raw[0])]) + Texts(raw[1..])
  }

  lemma {:induction false} UnendedLine(p: seq<u8>, l: seq<u8>)
    requires 0x0a !in l
    ensures CutFrom(p, l) == Cut([], p + Stripped(l))
    decreases |l|
  {
    if l == [] {
      assert p + [] == p;
    } else {
      var q := if l[0] == CR then p else p + [l[0]];
      UnendedLine(q, l[1..]);
      assert l[0] in l && l[0] != LF;
      assert CutFrom(p, l) == CutFrom(q, l[1..]);
      var rest := Stripped(l[1..]);
      hide CutFrom, Stripped;
      assert if l[0] == CR then q + rest == p + ([] + rest) else q + rest == p + ([l[0]] + rest);
    }
  }

  lemma {:induction false} WireCuts(raw: seq<seq<u8>>, tail: seq<u8>)
    requires (forall k :: 0 <= k < |raw| ==> 0x0a !in raw[k]) && 0x0a !in tail
    ensures CutFrom([], Wire(raw) + tail) == Cut(Texts(raw), Stripped(tail))
    decreases |raw|
  {
    if raw == [] {
      UnendedLine([], tail);
      assert [] + tail == tail;
    } else {
      var rest := Wire(raw[1..]) + tail;
      WireCuts(raw[1..], tail);
      UnendedLine([], raw[0]);
      CutAppend([], raw[0], [0x0a] + rest);
      assert Wire(raw) + tail == raw[0] + ([0x0a] + rest);
      assert ([0x0a] + rest)[1..] == rest;
      assert [] + Stripped(raw[0]) == Stripped(raw[0]);
    }
  }

  lemma {:induction false} TextsFit(raw: seq<seq<u8>>)
    requires forall k :: 0 <= k < |raw| ==> |Stripped(raw[k])| < LINE_CAP
    ensures Fits(Texts(raw))
    decreases |raw|
  {
    if raw != [] {
      TextsFit(raw[1..]);
    }
  }

  /** What a server sends is what processLine gets: any lines, each ended by a line feed and none longer than 511
      characters, in any segments, arrive in order without their carriage returns, blank ones left out, and what follows
      the last line feed is carried. */
  lemma LinesArrive(segs: seq<seq<u8>>, raw: seq<seq<u8>>, tail: seq<u8>)
    requires Flatten(segs) == Wire(raw) + tail
    requires (forall k :: 0 <= k < |raw| ==> 0x0a !in raw[k] && |Stripped(raw[k])| <= 511) && 0x0a !in tail
    ensures Segments([], segs).0 == Texts(raw)
    ensures |Stripped(tail)| <= 511 ==> Segments([], segs).1 == Stripped(tail)
  {
    WireCuts(raw, tail);
    TextsFit(raw);
    ChunkingInvariance(segs);
    if |Stripped(tail)| <= 511 {
      CarriedTail(segs);
    }
  }

  /** Two ways of cutting the same stream are indistinguishable. */
  lemma SplitDoesNotMatter(a: seq<seq<u8>>, b: seq<seq<u8>>)
    requires Flatten(a) == Flatten(b) && Fits(CutFrom([], Flatten(a)).lines) && |CutFrom([], Flatten(a)).tail| < LINE_CAP
    ensures Segments([], a) == Segments([], b)
  {
    CarriedTail(a);
    CarriedTail(b);
  }

  // ---- the code --------------------------------------------------------------------

  class Reader {
    const ircPartial: array<u8>
    var ircPartialLen: nat
    /** Lines handed to processLine so far. */
    ghost var lines: seq<seq<u8>>

    ghost predicate Valid()
      reads this
    {
      ircPartial.Length == 514 && ircPartialLen <= LINE_CAP
    }

    ghost function Partial(): seq<u8>
      requires Valid()
      reads this, ircPartial
    {
      ircPartial[..ircPartialLen]
    }

    constructor ()
      ensures Valid() && Partial() == [] && lines == [] && fresh(ircPartial)
    {
      ircPartial := new u8[514];
      ircPartialLen := 0;
      lines := [];
    }

    /** The segment-to-line loop of pollNet on the n bytes of rx. */
    method PollSegment(rx: array<u8>, n: nat)
      requires Valid() && n <= rx.Length && rx != ircPartial
      modifies this, ircPartial
      ensures Valid()
      ensures lines == old(lines) + Segment(old(Partial()), rx[..n]).0
      ensures Partial() == Segment(old(Partial()), rx[..n]).1
    {
      ghost var s := rx[..n];
      ghost var goal := Segment(Partial(), s);
      ghost var seen: seq<seq<u8>> := [];
      var off := 0;
      var linebuf := new u8[514];
      var stop := false;
      assert s[0..] == s && [] + goal.0 == goal.0;
      while off < n && !stop
        invariant 0 <= off <= n && Valid() && rx[..n] == s
        invariant lines == old(lines) + seen
        invariant stop ==> (seen, Partial()) == goal
        invariant !stop ==> goal == Then(seen, Segment(Partial(), s[off..]))
        decreases n - off, !stop
      {
        ghost var got;
        off, stop, got := PollLine(rx, n, off, linebuf, s);
        ThenTwice(seen, got, if stop then ([], Partial()) else Segment([], s[off..]));
        seen := seen + got;
      }
    }

    /** Lines already handed over, before what a result still brings. */
    static ghost function Then(seen: seq<seq<u8>>, r: (seq<seq<u8>>, seq<u8>)): (seq<seq<u8>>, seq<u8>) {
      (seen + r.0, r.1)
    }

    static lemma ThenTwice(a: seq<seq<u8>>, b: seq<seq<u8>>, r: (seq<seq<u8>>, seq<u8>))
      ensures Then(a, Then(b, r)) == Then(a + b, r)
      ensures r.0 == [] ==> Then(a, r) == (a, r.1)
      ensures Then([], r) == r
    {
      assert a + [] == a && [] + r.0 == r.0;
      assert a + (b + r.0) == a + b + r.0;
    }

    /** One turn of the outer loop: a finished line, a skipped one, or the end of the segment. */
    method PollLine(rx: array<u8>, n: nat, start: nat, linebuf: array<u8>, ghost s: seq<u8>)
      returns (off: nat, stop: bool, ghost got: seq<seq<u8>>)
      requires Valid() && start < n <= rx.Length && rx != ircPartial && s == rx[..n]
      requires linebuf.Length == 514 && linebuf != rx && linebuf != ircPartial
      modifies this, ircPartial, linebuf
      ensures Valid() && start <= off <= n && (!stop ==> start < off) && lines == old(lines) + got
      ensures if stop then got == [] && Segment(old(Partial()), s[start..]) == ([], Partial())
              else Partial() == [] && Segment(old(Partial()), s[start..]) == Then(got, Segment([], s[off..]))
    {
      var li, hitNewline;
      li, off, hitNewline := ReadLine(rx, n, start, linebuf, s);
      stop, got := false, [];
      if hitNewline {
        got := Line(linebuf[..li]);
        if li > 0 {
          lines := lines + [linebuf[..li]];
        }
      } else if off < n {
        ircPartialLen := 0;
        off := SkipLine(rx, n, off, s);
        ThenTwice([], [], Segment([], s[off..]));
      } else {
        SavePartial(linebuf, li);
        stop := true;
      }
    }

    /** Prepends the saved partial, then copies bytes until LF, a full buffer, or the end of the segment. */
    method ReadLine(rx: array<u8>, n: nat, start: nat, linebuf: array<u8>, ghost s: seq<u8>)
      returns (li: nat, off: nat, hitNewline: bool)
      requires Valid() && start < n <= rx.Length && s == rx[..n]
      requires rx != linebuf && linebuf != ircPartial && linebuf.Length == 514
      modifies this`ircPartialLen, linebuf
      ensures ircPartialLen == 0 && li <= LINE_CAP && start <= off <= n && (hitNewline ==> start < off)
      ensures (linebuf[..li], s[off..], hitNewline) == Scan(old(Partial()), s[start..])
    {
      li := LoadPartial(linebuf);
      ircPartialLen := 0;
      off, hitNewline := start, false;
      ghost var goal := Scan(old(Partial()), s[start..]);
      while off < n && li < LINE_CAP && !hitNewline
        invariant start <= off <= n && li <= LINE_CAP && ircPartialLen == 0
        invariant hitNewline ==> start < off && goal == (linebuf[..li], s[off..], true)
        invariant !hitNewline ==> goal == Scan(linebuf[..li], s[off..])
        decreases n - off, !hitNewline
      {
        var c := rx[off];
        assert s[off..][0] == c && s[off..][1..] == s[off + 1..];
        off := off + 1;
        if c == LF {
          hitNewline := true;
        } else if c != CR {
          ghost var was := linebuf[..li];
          linebuf[li] := c;
          li := li + 1;
          assert linebuf[..li] == was + [c];
        }
      }
    }

    method LoadPartial(linebuf: array<u8>) returns (li: nat)
      requires Valid() && linebuf != ircPartial && linebuf.Length == 514
      modifies linebuf
      ensures li == ircPartialLen && linebuf[..li] == Partial()
    {
      var pi := 0;
      while pi < ircPartialLen
        invariant 0 <= pi <= ircPartialLen && linebuf[..pi] == ircPartial[..pi]
      {
        linebuf[pi] := ircPartial[pi];
        pi := pi + 1;
      }
      li := pi;
    }

    /** The line was too long: continue after the next LF of this segment. */
    static method SkipLine(rx: array<u8>, n: nat, start: nat, ghost s: seq<u8>) returns (off: nat)
      requires start < n <= rx.Length && s == rx[..n]
      ensures start < off <= n && s[off..] == Resync(s[start..])
    {
      off := start;
      while off < n && rx[off] != LF
        invariant start <= off <= n && Resync(s[off..]) == Resync(s[start..])
      {
        assert s[off..][1..] == s[off + 1..];
        off := off + 1;
      }
      if off < n {
        assert s[off..][1..] == s[off + 1..];
        off := off + 1;
      }
    }

    /** The segment ended inside a line: keep it for the next one. */
    method SavePartial(linebuf: array<u8>, li: nat)
      requires Valid() && li <= LINE_CAP && linebuf.Length == 514 && linebuf != ircPartial
      modifies this`ircPartialLen, ircPartial
      ensures Valid() && Partial() == linebuf[..li]
    {
      ircPartialLen := li;
      var i := 0;
      while i < li
        invariant 0 <= i <= li && ircPartialLen == li && ircPartial[..i] == linebuf[..i]
      {
        ircPartial[i] := linebuf[i];
        i := i + 1;
      }
      if li < 514 {
        ircPartial[li] := 0;
      }
    }
  }
}
