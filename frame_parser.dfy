/**
 * The frame parser of the MJPEG client: the chain of read callbacks
 * `_seek_content_length` -> `_on_before_content_length` -> `_on_content_length`
 * -> `_on_jpg` -> `_seek_content_length`, written as a phase value (which read
 * is pending) and a transition function over the stream's read buffer.
 */
module FrameParser {
  import opened Wrappers
  import opened ByteStrings
  import opened Decimal

  /** The literal `Content-Length:` that the first delimited read waits for. */
  const Marker: Bytes := [67, 111, 110, 116, 101, 110, 116, 45, 76, 101, 110, 103, 116, 104, 58]

  /** The blank line `\r\n\r\n` that ends the header chunk. */
  const HeaderEnd: Bytes := [13, 10, 13, 10]

  /** The two delimiters spelled as text. */
  lemma DelimiterText()
    ensures Marker == Ascii("Content-Length:")
    ensures HeaderEnd == Ascii("\r\n\r\n")
  {
  }

  /**
   * Which read the connection has pending, and so which callback runs next.
   * Connecting: the socket connect has not completed (`_on_connect` pending).
   * AwaitMarker: `read_until('Content-Length:')`, then `_on_before_content_length`.
   * AwaitHeaderEnd: `read_until('\r\n\r\n')`, then `_on_content_length`.
   * AwaitBody(length): `read_bytes(length)`, then `_on_jpg`.
   * Closed: the stream is closed; no callback runs any more.
   */
  datatype Phase = Connecting | AwaitMarker | AwaitHeaderEnd | AwaitBody(length: nat) | Closed

  /**
   * The frame length announced by a header chunk: the value of its first run
   * of digits, or None when it holds no digit at all.
   */
  function HeaderLength(header: Bytes): (r: Option<nat>)
    ensures r.None? <==> NoDigits(header)
  {
    match FirstDigitRun(header)
    case None => None
    case Some(sp) => Some(Value(header[sp.start..sp.end]))
  }

  /**
   * One step of the parser: either the pending read cannot complete with the
   * bytes buffered so far (Blocked), or it completes, its callback runs, and
   * the connection moves to the phase `next` with `rest` left in the buffer,
   * having stored `frame` when the callback was `_on_jpg`.
   */
  datatype Step = Blocked | Fire(next: Phase, rest: Bytes, frame: Option<Bytes>)

  function Next(p: Phase, buf: Bytes, error: bool): (r: Step)
    ensures p.Connecting? || p.Closed? ==> r.Blocked?
    ensures r.Fire? ==> |r.rest| <= |buf|
    ensures r.Fire? && !p.AwaitBody? ==> |r.rest| < |buf|
    ensures r.Fire? && p.AwaitBody? ==> !r.next.AwaitBody?
    ensures r.Fire? ==> (r.frame.Some? <==> p.AwaitBody?)
    ensures r.Fire? && error ==> r.next == Closed
  {
    match p
    case Connecting => Blocked
    case Closed => Blocked
    case AwaitMarker =>
      (match IndexOf(buf, Marker)
       case None => Blocked
       case Some(i) =>
         // _on_before_content_length: the bytes up to the marker are dropped
         Fire(if error then Closed else AwaitHeaderEnd, buf[i + |Marker|..], None))
    case AwaitHeaderEnd =>
      (match IndexOf(buf, HeaderEnd)
       case None => Blocked
       case Some(i) =>
         // _on_content_length: a pending error or a chunk without digits closes
         var header, rest := buf[..i + |HeaderEnd|], buf[i + |HeaderEnd|..];
         if error then Fire(Closed, rest, None)
         else
           match HeaderLength(header)
           case None => Fire(Closed, rest, None)
           case Some(n) => Fire(AwaitBody(n), rest, None))
    case AwaitBody(n) =>
      if |buf| < n then Blocked
      else
        // _on_jpg stores the frame first; _seek_content_length then checks the error
        Fire(if error then Closed else AwaitMarker, buf[n..], Some(buf[..n]))
  }

  /** The effect of running the parser until no pending read can complete. */
  datatype Outcome = Outcome(phase: Phase, rest: Bytes, frames: seq<Bytes>)

  function FrameList(f: Option<Bytes>): seq<Bytes>
  {
    match f
    case None => []
    case Some(x) => [x]
  }

  /** Fires steps until the parser blocks; collects the frames stored on the way. */
  function Run(p: Phase, buf: Bytes, error: bool): (o: Outcome)
    ensures Next(o.phase, o.rest, error).Blocked?
    ensures |o.rest| <= |buf|
    ensures p.Connecting? || p.Closed? ==> o == Outcome(p, buf, [])
    decreases |buf|, if p.AwaitBody? then 1 else 0
  {
    match Next(p, buf, error)
    case Blocked => Outcome(p, buf, [])
    case Fire(q, rest, f) =>
      var o := Run(q, rest, error);
      Outcome(o.phase, o.rest, FrameList(f) + o.frames)
  }

  /** A completed read consumes the front of the buffer: what it leaves is a suffix. */
  lemma NextLeavesSuffix(p: Phase, buf: Bytes, error: bool)
    requires Next(p, buf, error).Fire?
    ensures var r := Next(p, buf, error);
            r.rest == buf[|buf| - |r.rest|..]
  {
  }

  /** The bytes left after the parse loop are the tail of what it was given. */
  lemma {:induction false} RunLeavesSuffix(p: Phase, buf: Bytes, error: bool)
    ensures var o := Run(p, buf, error);
            o.rest == buf[|buf| - |o.rest|..]
    decreases |buf|, if p.AwaitBody? then 1 else 0
  {
    var step := Next(p, buf, error);
    if step.Fire? {
      NextLeavesSuffix(p, buf, error);
      RunLeavesSuffix(step.next, step.rest, error);
      var o := Run(step.next, step.rest, error);
      assert step.rest[|step.rest| - |o.rest|..] == buf[|buf| - |o.rest|..];
    }
  }

  /** A step that fires is followed by the run from where it leads. */
  lemma RunFires(p: Phase, buf: Bytes, error: bool)
    requires Next(p, buf, error).Fire?
    ensures var s := Next(p, buf, error);
            var o := Run(s.next, s.rest, error);
            Run(p, buf, error) == Outcome(o.phase, o.rest, FrameList(s.frame) + o.frames)
  {
  }

  /** Runs on from an earlier outcome once more bytes have arrived. */
  function Resume(o: Outcome, more: Bytes, error: bool): Outcome
  {
    var o' := Run(o.phase, o.rest + more, error);
    Outcome(o'.phase, o'.rest, o.frames + o'.frames)
  }

  /** A read that completes keeps completing the same way when more bytes follow. */
  lemma NextExtends(p: Phase, buf: Bytes, more: Bytes, error: bool)
    requires Next(p, buf, error).Fire?
    ensures Next(p, buf + more, error)
         == Fire(Next(p, buf, error).next, Next(p, buf, error).rest + more, Next(p, buf, error).frame)
  {
    match p
    case AwaitMarker =>
      IndexOfExtends(buf, more, Marker);
      var i := IndexOf(buf, Marker).value;
      SuffixExtends(buf, more, i + |Marker|);
    case AwaitHeaderEnd =>
      IndexOfExtends(buf, more, HeaderEnd);
      var i := IndexOf(buf, HeaderEnd).value;
      SuffixExtends(buf, more, i + |HeaderEnd|);
    case AwaitBody(n) =>
      SuffixExtends(buf, more, n);
  }

  lemma SuffixExtends(buf: Bytes, more: Bytes, k: nat)
    requires k <= |buf|
    ensures (buf + more)[..k] == buf[..k]
    ensures (buf + more)[k..] == buf[k..] + more
  {
  }

  /**
   * How the transport splits the stream into chunks does not matter: parsing
   * `a` and then, after `b` arrives, the rest, is parsing `a + b` at once.
   */
  lemma {:induction false} RunChunked(p: Phase, a: Bytes, b: Bytes, error: bool)
    ensures Run(p, a + b, error) == Resume(Run(p, a, error), b, error)
    decreases |a|, if p.AwaitBody? then 1 else 0, 1
  {
    if Next(p, a, error).Fire? {
      RunChunkedFires(p, a, b, error);
    } else {
      assert Run(p, a, error) == Outcome(p, a, []);
      var o := Run(p, a + b, error);
      assert [] + o.frames == o.frames;
    }
  }

  lemma {:induction false} RunChunkedFires(p: Phase, a: Bytes, b: Bytes, error: bool)
    requires Next(p, a, error).Fire?
    ensures Run(p, a + b, error) == Resume(Run(p, a, error), b, error)
    decreases |a|, if p.AwaitBody? then 1 else 0, 0
  {
    var step := Next(p, a, error);
    var q, rest, f := step.next, step.rest, step.frame;
    NextExtends(p, a, b, error);
    RunChunked(q, rest, b, error);
    var o1 := Run(q, rest, error);
    var o2 := Run(o1.phase, o1.rest + b, error);
    assert Run(p, a, error) == Outcome(o1.phase, o1.rest, FrameList(f) + o1.frames) by {
      RunFires(p, a, error);
    }
    assert Run(p, a + b, error) == Outcome(o2.phase, o2.rest, FrameList(f) + (o1.frames + o2.frames)) by {
      RunFires(p, a + b, error);
    }
    ConcatAssoc(FrameList(f), o1.frames, o2.frames);
  }

  lemma ConcatAssoc<T>(x: seq<T>, y: seq<T>, z: seq<T>)
    ensures x + (y + z) == (x + y) + z
  {
  }

  /** `k` space bytes, the padding a `%9d`-style length field puts before the digits. */
  function Spaces(k: nat): (r: Bytes)
    ensures |r| == k && forall i :: 0 <= i < k ==> r[i] == 32
  {
    seq(k, _ => 32)
  }

  /**
   * One part of a well-formed stream: whatever precedes the length header
   * (`boundary`, e.g. the multipart boundary and a `Content-Type` line), the
   * marker, the length padded by `pad` spaces, the blank line and the payload.
   */
  function Part(boundary: Bytes, pad: nat, payload: Bytes): Bytes
  {
    boundary + Marker + ((Spaces(pad) + Render(|payload|) + HeaderEnd) + payload)
  }

  /**
   * How one part of a stream is sent: the text before its length header, the
   * padding of its length field and its payload. Both the text and the
   * padding may differ from part to part (a fixed-width length field pads
   * less as lengths grow).
   */
  datatype PartSpec = PartSpec(boundary: Bytes, pad: nat, payload: Bytes)

  /** The payloads of `ps`, in order. */
  function Payloads(ps: seq<PartSpec>): (r: seq<Bytes>)
    ensures |r| == |ps| && forall i :: 0 <= i < |ps| ==> r[i] == ps[i].payload
  {
    if ps == [] then [] else [ps[0].payload] + Payloads(ps[1..])
  }

  /** The stream that carries the parts `ps` in order. */
  function Stream(ps: seq<PartSpec>): Bytes
  {
    if ps == [] then [] else Part(ps[0].boundary, ps[0].pad, ps[0].payload) + Stream(ps[1..])
  }

  /**
   * Round trip: parsing a well-formed stream from the marker scan, with no
   * error pending, stores exactly the encoded payloads, in order, and ends
   * waiting for the next marker with nothing left over. The text before each
   * header may be anything that does not itself contain the marker.
   */
  lemma {:induction false} StreamParsed(ps: seq<PartSpec>)
    requires forall i :: 0 <= i < |ps| ==> Absent(ps[i].boundary, Marker)
    ensures Run(AwaitMarker, Stream(ps), false) == Outcome(AwaitMarker, [], Payloads(ps))
  {
    if ps != [] {
      var tail := Stream(ps[1..]);
      assert Run(AwaitMarker, tail, false) == Outcome(AwaitMarker, [], Payloads(ps[1..])) by {
        StreamParsed(ps[1..]);
      }
      assert Absent(ps[0].boundary, Marker);
      PartParsed(ps[0].boundary, ps[0].pad, ps[0].payload, tail);
    }
  }

  /** One well-formed part is parsed into its payload, whatever follows it. */
  lemma PartParsed(boundary: Bytes, pad: nat, payload: Bytes, tail: Bytes)
    requires Absent(boundary, Marker)
    ensures var o := Run(AwaitMarker, tail, false);
            Run(AwaitMarker, Part(boundary, pad, payload) + tail, false) == Outcome(o.phase, o.rest, [payload] + o.frames)
  {
    var n := |payload|;
    var header := Spaces(pad) + Render(n) + HeaderEnd;
    var s := boundary + Marker + (header + (payload + tail));
    PartThen(boundary, header, payload, tail);
    PartSteps(boundary, pad, payload, tail);
  }

  lemma PartThen(boundary: Bytes, header: Bytes, payload: Bytes, tail: Bytes)
    ensures boundary + Marker + (header + payload) + tail == boundary + Marker + (header + (payload + tail))
  {
    ConcatAssoc(boundary + Marker, header + payload, tail);
    ConcatAssoc(header, payload, tail);
  }

  lemma PartSteps(boundary: Bytes, pad: nat, payload: Bytes, tail: Bytes)
    requires Absent(boundary, Marker)
    ensures var o := Run(AwaitMarker, tail, false);
            var header := Spaces(pad) + Render(|payload|) + HeaderEnd;
            Run(AwaitMarker, boundary + Marker + (header + (payload + tail)), false)
              == Outcome(o.phase, o.rest, [payload] + o.frames)
  {
    var n := |payload|;
    var body := payload + tail;
    var afterMarker := Spaces(pad) + Render(n) + HeaderEnd + body;
    var s := boundary + Marker + afterMarker;
    var o := Run(AwaitMarker, tail, false);
    assert Run(AwaitBody(n), body, false) == Outcome(o.phase, o.rest, [payload] + o.frames) by {
      BodyStep(payload, tail);
      RunFires(AwaitBody(n), body, false);
    }
    assert Run(AwaitHeaderEnd, afterMarker, false) == Outcome(o.phase, o.rest, [payload] + o.frames) by {
      HeaderStep(pad, n, body);
      RunFires(AwaitHeaderEnd, afterMarker, false);
    }
    MarkerStep(boundary, afterMarker);
    RunFires(AwaitMarker, s, false);
  }

  /** The marker scan drops the boundary and the marker. */
  lemma MarkerStep(boundary: Bytes, afterMarker: Bytes)
    requires Absent(boundary, Marker)
    ensures Next(AwaitMarker, boundary + Marker + afterMarker, false) == Fire(AwaitHeaderEnd, afterMarker, None)
  {
    var s := boundary + Marker + afterMarker;
    MarkerAfter(boundary, afterMarker);
    assert s[|boundary| + |Marker|..] == afterMarker;
  }

  /** The header chunk ends at the first blank line and announces `n`. */
  lemma HeaderStep(pad: nat, n: nat, body: Bytes)
    ensures Next(AwaitHeaderEnd, Spaces(pad) + Render(n) + HeaderEnd + body, false) == Fire(AwaitBody(n), body, None)
  {
    var x := Spaces(pad) + Render(n);
    var s := x + HeaderEnd + body;
    NoCarriageReturn(pad, n);
    TerminatorAfter(x, body);
    assert s[..|x| + |HeaderEnd|] == x + HeaderEnd;
    assert s[|x| + |HeaderEnd|..] == body;
    HeaderLengthOfRendered(pad, n);
  }

  /** Exactly the announced number of bytes becomes the frame. */
  lemma BodyStep(payload: Bytes, tail: Bytes)
    ensures Next(AwaitBody(|payload|), payload + tail, false) == Fire(AwaitMarker, tail, Some(payload))
  {
    assert (payload + tail)[..|payload|] == payload;
    assert (payload + tail)[|payload|..] == tail;
  }

  /** The marker is found right after a prefix that does not contain it. */
  lemma MarkerAfter(prefix: Bytes, rest: Bytes)
    requires Absent(prefix, Marker)
    ensures IndexOf(prefix + Marker + rest, Marker) == Some(|prefix|)
  {
    var s := prefix + Marker + rest;
    assert s[|prefix|..|prefix| + |Marker|] == Marker;
    forall j: nat | j < |prefix|
      ensures !OccursAt(s, Marker, j)
    {
      if j + |Marker| <= |prefix| {
        assert s[j..j + |Marker|] == prefix[j..j + |Marker|];
        assert !OccursAt(prefix, Marker, j);
      } else {
        // `C` opens the marker and occurs nowhere else in it
        var t := |prefix| - j;
        assert s[j..j + |Marker|][t] == s[|prefix|] == Marker[0] != Marker[t];
      }
    }
    FirstOccurrence(s, Marker, |prefix|);
  }

  /** The blank line is found right after a prefix that holds no carriage return. */
  lemma TerminatorAfter(prefix: Bytes, rest: Bytes)
    requires forall i :: 0 <= i < |prefix| ==> prefix[i] != 13
    ensures IndexOf(prefix + HeaderEnd + rest, HeaderEnd) == Some(|prefix|)
  {
    var s := prefix + HeaderEnd + rest;
    assert s[|prefix|..|prefix| + |HeaderEnd|] == HeaderEnd;
    forall j: nat | j < |prefix|
      ensures !OccursAt(s, HeaderEnd, j)
    {
      assert s[j] == prefix[j];
    }
    FirstOccurrence(s, HeaderEnd, |prefix|);
  }

  lemma NoCarriageReturn(pad: nat, n: nat)
    ensures forall i :: 0 <= i < |Spaces(pad) + Render(n)| ==> (Spaces(pad) + Render(n))[i] != 13
  {
    var x := Spaces(pad) + Render(n);
    forall i | 0 <= i < |x|
      ensures x[i] != 13
    {
      if i >= pad {
        assert x[i] == Render(n)[i - pad];
      }
    }
  }

  /** A padded rendering of `n` followed by the blank line announces `n`. */
  lemma HeaderLengthOfRendered(pad: nat, n: nat)
    ensures HeaderLength(Spaces(pad) + Render(n) + HeaderEnd) == Some(n)
  {
    var r := Render(n);
    var h := Spaces(pad) + r + HeaderEnd;
    var sp := Span(pad, pad + |r|);
    assert h[..pad] == Spaces(pad);
    assert h[pad..pad + |r|] == r;
    assert h[pad + |r|] == 13;
    assert IsFirstDigitRun(h, sp);
    assert h[pad] == r[0] && IsDigit(h[pad]);
    assert FirstDigitRun(h).Some?;
    FirstDigitRunUnique(h, FirstDigitRun(h).value, sp);
    ValueOfRender(n);
  }

  /**
   * Once the header chunk is complete, the connection closes exactly when an
   * error is pending or the chunk holds no digit; otherwise it reads the
   * announced number of bytes next.
   */
  lemma HeaderChunkDecides(buf: Bytes, error: bool)
    requires IndexOf(buf, HeaderEnd).Some?
    ensures var header := buf[..IndexOf(buf, HeaderEnd).value + |HeaderEnd|];
            var step := Next(AwaitHeaderEnd, buf, error);
            && step.Fire? && step.frame.None?
            && (step.next == Closed <==> error || NoDigits(header))
            && (step.next != Closed ==> step.next == AwaitBody(HeaderLength(header).value))
  {
  }

  /**
   * A pending error stops the parser at the first callback that runs: the
   * connection closes there, and only `_on_jpg`, which stores its frame before
   * checking, can store one.
   */
  lemma PendingErrorStops(p: Phase, buf: Bytes)
    ensures var o := Run(p, buf, true);
            && |o.frames| <= 1
            && (o.frames != [] ==> p.AwaitBody? && o.frames[0] == buf[..p.length])
            && (o.phase == Closed || (o.phase == p && o.rest == buf && o.frames == []))
  {
    var step := Next(p, buf, true);
    if step.Fire? {
      RunFires(p, buf, true);
    }
  }
}
