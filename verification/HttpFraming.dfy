/**
 Reading one HTTP message from a connection: growing a buffer until it holds the header and the declared
 body (Content-Length framing, section 6.3 of RFC 9112).
 */
module HttpFraming {
  import opened Machine
  import opened ByteSearch

  const CR: Byte := 13
  const LF: Byte := 10
  const COLON: Byte := 58
  const HEADER_END: seq<Byte> := [CR, LF, CR, LF]
  const USIZE_MAX: nat := 0xFFFF_FFFF_FFFF_FFFF

  // ---- the declared length --------------------------------------------------------------------------

  predicate IsDigit(b: Byte) {
    48 <= b <= 57
  }

  predicate AllDigits(s: seq<Byte>) {
    forall i :: 0 <= i < |s| ==> IsDigit(s[i])
  }

  /** The value of a string of decimal digits. */
  function Decimal(s: seq<Byte>): nat
    requires AllDigits(s)
  {
    if s == [] then 0 else Decimal(s[..|s| - 1]) * 10 + (s[|s| - 1] - 48)
  }

  function Saturate(x: nat): nat {
    if x > USIZE_MAX then USIZE_MAX else x
  }

  /** All-digit text chunks as its value, capped at the largest usize; any other byte makes it 0. */
  method ParseUsize(bytes: seq<Byte>) returns (value: nat)
    ensures value == Length(bytes)
  {
    value := 0;
    for i := 0 to |bytes|
      invariant AllDigits(bytes[..i]) && value == Saturate(Decimal(bytes[..i]))
    {
      if !IsDigit(bytes[i]) {
        return 0;
      }
      assert bytes[..i + 1][..i] == bytes[..i];
      value := Saturate(Saturate(value * 10) + (bytes[i] - 48));
    }
    assert bytes[..|bytes|] == bytes;
  }

  function Length(s: seq<Byte>): (n: nat)
    ensures n <= USIZE_MAX
  {
    if AllDigits(s) then Saturate(Decimal(s)) else 0
  }

  predicate IsSpace(b: Byte) {
    b == 32 || b == 9 || b == 10 || b == 12 || b == 13
  }

  predicate AllSpace(s: seq<Byte>) {
    forall i :: 0 <= i < |s| ==> IsSpace(s[i])
  }

  /** r is s without its leading and trailing white space. */
  ghost predicate IsTrimmed(s: seq<Byte>, r: seq<Byte>) {
    && (r == [] || (!IsSpace(r[0]) && !IsSpace(r[|r| - 1])))
    && exists start: nat :: IsCore(s, r, start)
  }

  ghost predicate IsCore(s: seq<Byte>, r: seq<Byte>, start: nat) {
    && start + |r| <= |s| && s[start..start + |r|] == r
    && AllSpace(s[..start]) && AllSpace(s[start + |r|..])
  }

  function Trim(s: seq<Byte>): (r: seq<Byte>)
    ensures IsTrimmed(s, r)
    decreases |s|
  {
    if s == [] then
      assert IsCore(s, [], 0);
      []
    else if IsSpace(s[0]) then
      var r := Trim(s[1..]);
      ghost var start: nat :| IsCore(s[1..], r, start);
      assert s[..start + 1] == [s[0]] + s[1..][..start];
      assert s[1..][start..start + |r|] == s[start + 1..start + 1 + |r|];
      assert s[1..][start + |r|..] == s[start + 1 + |r|..];
      assert IsCore(s, r, start + 1);
      r
    else if IsSpace(s[|s| - 1]) then
      var n := |s| - 1;
      var r := Trim(s[..n]);
      ghost var start: nat :| IsCore(s[..n], r, start);
      assert s[..n][..start] == s[..start];
      assert s[..n][start..start + |r|] == s[start..start + |r|];
      assert s[start + |r|..] == s[..n][start + |r|..] + [s[n]];
      assert IsCore(s, r, start);
      r
    else
      assert s[0..0 + |s|] == s;
      assert IsCore(s, s, 0);
      s
  }

  /** Only one text is what trimming leaves. */
  lemma TrimIsUnique(s: seq<Byte>, a: seq<Byte>, b: seq<Byte>)
    requires IsTrimmed(s, a) && IsTrimmed(s, b)
    ensures a == b
  {
    var i: nat :| IsCore(s, a, i);
    var j: nat :| IsCore(s, b, j);
    CoreContains(s, a, i, b, j);
    CoreContains(s, b, j, a, i);
  }

  /** A core with no outer white space lies inside every other core. */
  lemma CoreContains(s: seq<Byte>, a: seq<Byte>, i: nat, b: seq<Byte>, j: nat)
    requires IsCore(s, a, i) && IsCore(s, b, j) && (a == [] || (!IsSpace(a[0]) && !IsSpace(a[|a| - 1])))
    ensures a == [] || (j <= i && i + |a| <= j + |b|)
    ensures a == [] ==> AllSpace(s)
  {
    if a != [] {
      var k := i + |a| - 1;
      assert !IsSpace(s[i]) && !IsSpace(s[k]);
      OuterIsSpace(s, b, j, i);
      OuterIsSpace(s, b, j, k);
    } else {
      assert s == s[..i] + s[i..];
    }
  }

  lemma OuterIsSpace(s: seq<Byte>, b: seq<Byte>, j: nat, k: nat)
    requires IsCore(s, b, j) && k < |s|
    ensures k < j || j + |b| <= k ==> IsSpace(s[k])
  {
    assert s == s[..j] + s[j..j + |b|] + s[j + |b|..];
  }

  /** The two cursor loops. */
  method TrimAscii(bytes: seq<Byte>) returns (r: seq<Byte>)
    ensures r == Trim(bytes)
  {
    var start, end := 0, |bytes|;
    while start < end && IsSpace(bytes[start])
      invariant 0 <= start <= end == |bytes|
      invariant AllSpace(bytes[..start])
    {
      start := start + 1;
    }
    while end > start && IsSpace(bytes[end - 1])
      invariant start <= end <= |bytes|
      invariant start == |bytes| || !IsSpace(bytes[start])
      invariant AllSpace(bytes[end..])
    {
      end := end - 1;
    }
    r := bytes[start..end];
    assert IsCore(bytes, r, start);
    TrimIsUnique(bytes, r, Trim(bytes));
  }

  /** content-length */
  const CONTENT_LENGTH: seq<Byte> := [99, 111, 110, 116, 101, 110, 116, 45, 108, 101, 110, 103, 116, 104]

  function ToLower(b: Byte): Byte {
    if 65 <= b <= 90 then b + 32 else b
  }

  predicate EqIgnoreAsciiCase(left: seq<Byte>, right: seq<Byte>) {
    |left| == |right| && forall i :: 0 <= i < |left| ==> ToLower(left[i]) == right[i]
  }

  function StripCr(line: seq<Byte>): seq<Byte> {
    if line != [] && line[|line| - 1] == CR then line[..|line| - 1] else line
  }

  /** The length one line declares, if it is a Content-Length field. */
  function LineLength(line: seq<Byte>): Option<nat> {
    var l := StripCr(line);
    var colon := Index(l, [COLON]);
    if colon >= 0 && EqIgnoreAsciiCase(l[..colon], CONTENT_LENGTH) then Some(Length(Trim(l[colon + 1..]))) else None
  }

  /** The length declared by the first line that declares one, or 0. */
  function ContentLength(header: seq<Byte>): (n: nat)
    ensures n <= USIZE_MAX
    decreases |header|
  {
    var i := Index(header, [LF]);
    var line := if i < 0 then header else header[..i];
    if LineLength(line).Some? then Saturate(LineLength(line).value)
    else if i < 0 then 0
    else ContentLength(header[i + 1..])
  }

  /** What the first line settles, and when the next one is looked at. */
  lemma FirstLineDecides(header: seq<Byte>)
    ensures var i := Index(header, [LF]);
            var line := StripCr(if i < 0 then header else header[..i]);
            var colon := Index(line, [COLON]);
            && i < |header| && colon < |line|
            && ContentLength(header)
               == if colon >= 0 && EqIgnoreAsciiCase(line[..colon], CONTENT_LENGTH)
                  then Saturate(Length(Trim(line[colon + 1..])))
                  else if i < 0 then 0 else ContentLength(header[i + 1..])
  {
    hide Trim, StripCr, EqIgnoreAsciiCase, Length, Saturate;
  }

  /** The line loop. */
  method ParseContentLength(header: seq<Byte>) returns (n: nat)
    ensures n == ContentLength(header)
  {
    hide Index, Trim, StripCr, EqIgnoreAsciiCase, ContentLength, LineLength;
    var rest, more := header, true;
    while more
      invariant more ==> ContentLength(rest) == ContentLength(header)
      invariant !more ==> ContentLength(header) == 0
      decreases more, |rest|
    {
      FirstLineDecides(rest);
      var i := Index(rest, [LF]);
      var line := StripCr(if i < 0 then rest else rest[..i]);
      var colon := Index(line, [COLON]);
      if colon >= 0 && EqIgnoreAsciiCase(line[..colon], CONTENT_LENGTH) {
        var value := TrimAscii(line[colon + 1..]);
        n := ParseUsize(value);
        return;
      }
      if i < 0 {
        more := false;
      } else {
        rest := rest[i + 1..];
      }
    }
    n := 0;
  }

  // ---- the frame --------------------------------------------------------------------------------------

  function FindHeaderEnd(bytes: seq<Byte>): int {
    Index(bytes, HEADER_END)
  }

  predicate HasHeader(buf: seq<Byte>) {
    FindHeaderEnd(buf) >= 0
  }

  /** One past the last byte of the message that starts the stream w, once w holds its header. */
  function FrameEnd(w: seq<Byte>): nat
    requires HasHeader(w)
  {
    var bodyStart := FindHeaderEnd(w) + 4;
    bodyStart + ContentLength(w[..bodyStart])
  }

  /** The buffer holds the header and the whole declared body. */
  predicate Framed(buf: seq<Byte>) {
    HasHeader(buf) && FrameEnd(buf) <= |buf|
  }

  /** Where the header ends and how long the body is depend on the stream alone, not on how much was read. */
  lemma FrameIgnoresLaterBytes(buf: seq<Byte>, w: seq<Byte>)
    requires buf <= w
    ensures HasHeader(buf) <==> HasHeader(w) && FindHeaderEnd(w) + 4 <= |buf|
    ensures HasHeader(buf) ==> FindHeaderEnd(buf) == FindHeaderEnd(w) && FrameEnd(buf) == FrameEnd(w)
    ensures Framed(buf) <==> HasHeader(w) && FrameEnd(w) <= |buf|
  {
    hide ContentLength, Index;
    IndexInPrefix(buf, w, HEADER_END);
    if HasHeader(w) && FindHeaderEnd(w) + 4 <= |buf| {
      var bodyStart := FindHeaderEnd(w) + 4;
      assert buf[..bodyStart] == w[..bodyStart];
    }
  }

  // ---- reading ------------------------------------------------------------------------------------------

  /** What one read on a connection yields; no bytes mean the peer closed it. */
  datatype Read = Bytes(bytes: seq<Byte>) | Failure

  datatype Outcome = Complete | Closed | EndedEarly | Failed

  datatype Done = Done(outcome: Outcome, buf: seq<Byte>, rest: seq<Read>)

  /** Reads until the buffer is framed; `started` says that a read has already succeeded. */
  function ReadMessage(buf: seq<Byte>, chunks: seq<Read>, started: bool): Done
    decreases |chunks|
  {
    if chunks == [] then Done(if started && HasHeader(buf) then EndedEarly else Closed, buf, [])
    else if chunks[0].Failure? then Done(Failed, buf, chunks[1..])
    else if chunks[0].bytes == [] then Done(if started && HasHeader(buf) then EndedEarly else Closed, buf, chunks[1..])
    else if Framed(buf + chunks[0].bytes) then Done(Complete, buf + chunks[0].bytes, chunks[1..])
    else ReadMessage(buf + chunks[0].bytes, chunks[1..], true)
  }

  class Connection {
    var pending: seq<Read>

    constructor (pending: seq<Read>)
      ensures this.pending == pending
    {
      this.pending := pending;
    }

    /** Appends what the next read yields to the buffer. */
    method ReadSome(out: Buffer) returns (n: Option<nat>)
      modifies this, out
      ensures old(pending) == [] ==> n == Some(0) && pending == [] && out.bytes == old(out.bytes)
      ensures old(pending) != [] ==> pending == old(pending)[1..]
      ensures old(pending) != [] && old(pending)[0].Failure? ==> n.None? && out.bytes == old(out.bytes)
      ensures old(pending) != [] && old(pending)[0].Bytes?
              ==> n == Some(|old(pending)[0].bytes|) && out.bytes == old(out.bytes) + old(pending)[0].bytes
    {
      if pending == [] {
        return Some(0);
      }
      var next := pending[0];
      pending := pending[1..];
      if next.Failure? {
        return None;
      }
      out.bytes := out.bytes + next.bytes;
      n := Some(|next.bytes|);
    }
  }

  class Buffer {
    var bytes: seq<Byte>

    constructor ()
      ensures bytes == []
    {
      bytes := [];
    }
  }

  /** The header loop, then the body loop over the header end and length found first. */
  method ReadHttpMessage(conn: Connection, out: Buffer) returns (r: Outcome)
    modifies conn, out
    ensures Done(r, out.bytes, conn.pending) == ReadMessage(old(out.bytes), old(conn.pending), false)
  {
    hide Framed, HasHeader, FrameEnd, ContentLength;
    ghost var done := ReadMessage(out.bytes, conn.pending, false);
    var headerEnd := -1;
    ghost var started := false;
    while headerEnd < 0
      invariant headerEnd < 0 ==> ReadMessage(out.bytes, conn.pending, started) == done
      invariant headerEnd < 0 && started ==> !HasHeader(out.bytes)
      invariant headerEnd >= 0 ==> HeaderAt(out.bytes, headerEnd) && Resumed(out.bytes, conn.pending, done)
      decreases |conn.pending|, headerEnd < 0
    {
      ghost var before, chunks := out.bytes, conn.pending;
      var n := conn.ReadSome(out);
      if n.None? {
        return Failed;
      }
      if n.value == 0 {
        assert out.bytes == before;
        return Closed;
      }
      headerEnd := FindHeaderEnd(out.bytes);
      HeaderFound(out.bytes, headerEnd);
      started := true;
    }
    var bodyStart := headerEnd + 4;
    var contentLength := ParseContentLength(out.bytes[..bodyStart]);
    while |out.bytes| - bodyStart < contentLength
      invariant HeaderAt(out.bytes, headerEnd) && contentLength == ContentLength(out.bytes[..bodyStart])
      invariant Resumed(out.bytes, conn.pending, done)
      decreases |conn.pending|
    {
      ghost var before := out.bytes;
      NotYetFramed(before, headerEnd);
      var n := conn.ReadSome(out);
      if n.None? {
        return Failed;
      }
      if n.value == 0 {
        assert out.bytes == before;
        return EndedEarly;
      }
      HeaderStays(before, out.bytes, headerEnd);
    }
    NotYetFramed(out.bytes, headerEnd);
    r := Complete;
  }

  ghost predicate HeaderAt(buf: seq<Byte>, at: int) {
    at >= 0 && at == FindHeaderEnd(buf) && at + 4 <= |buf|
  }

  /** What remains of a read that has already succeeded once. */
  ghost predicate Resumed(buf: seq<Byte>, chunks: seq<Read>, done: Done) {
    done == if Framed(buf) then Done(Complete, buf, chunks) else ReadMessage(buf, chunks, true)
  }

  lemma HeaderFound(buf: seq<Byte>, at: int)
    requires at == FindHeaderEnd(buf)
    ensures HasHeader(buf) <==> at >= 0
    ensures at >= 0 ==> HeaderAt(buf, at)
    ensures at < 0 ==> !Framed(buf)
  {
  }

  lemma NotYetFramed(buf: seq<Byte>, at: nat)
    requires HeaderAt(buf, at)
    ensures HasHeader(buf)
    ensures Framed(buf) <==> |buf| - (at + 4) >= ContentLength(buf[..at + 4])
  {
  }

  lemma HeaderStays(buf: seq<Byte>, more: seq<Byte>, at: nat)
    requires HeaderAt(buf, at) && buf <= more
    ensures HeaderAt(more, at) && more[..at + 4] == buf[..at + 4]
  {
    IndexInPrefix(buf, more, HEADER_END);
  }

  // ---- chunking does not matter --------------------------------------------------------------------------

  /** Every read yields at least one byte. */
  predicate AllData(chunks: seq<Read>) {
    forall i :: 0 <= i < |chunks| ==> chunks[i].Bytes? && chunks[i].bytes != []
  }

  /** The byte stream that a run of reads delivers. */
  function Joined(chunks: seq<Read>): seq<Byte>
    requires AllData(chunks)
  {
    if chunks == [] then [] else chunks[0].bytes + Joined(chunks[1..])
  }

  /**
   However a stream is split into reads, a message is complete exactly when the stream holds its header
   and declared body, and reading stops at the first read that reaches the end of the frame.
   */
  lemma {:induction false} ReadingStopsAtTheFrame(buf: seq<Byte>, chunks: seq<Read>, started: bool)
    requires AllData(chunks) && !Framed(buf)
    ensures var w, done := buf + Joined(chunks), ReadMessage(buf, chunks, started);
            var k := |chunks| - |done.rest|;
            && 0 <= k && done.rest == chunks[k..] && done.buf == buf + Joined(chunks[..k])
            && (done.outcome == Complete <==> Framed(w))
            && (Framed(w) ==> k > 0 && |buf + Joined(chunks[..k - 1])| < FrameEnd(w) <= |done.buf|)
            && (!Framed(w) ==> k == |chunks| && done.outcome
                               == if (started || chunks != []) && HasHeader(w) then EndedEarly else Closed)
    decreases |chunks|
  {
    hide Framed, FrameEnd, HasHeader;
    if chunks == [] {
      assert buf + Joined(chunks) == buf;
    } else {
      var next, rest := buf + chunks[0].bytes, chunks[1..];
      JoinedPrefix(buf, chunks, |chunks|);
      FrameStartsIn(next, buf + Joined(chunks));
      FrameStartsIn(buf, buf + Joined(chunks));
      if Framed(next) {
        assert chunks[..1][1..] == [];
        assert Joined(chunks[..1]) == chunks[0].bytes + Joined([]);
        assert buf + Joined(chunks[..0]) == buf;
      } else {
        ReadingStopsAtTheFrame(next, rest, true);
        var k := |rest| - |ReadMessage(next, rest, true).rest|;
        JoinedPrefix(buf, chunks, k + 1);
        assert rest[k..] == chunks[k + 1..];
        if k > 0 {
          JoinedPrefix(buf, chunks, k);
        }
      }
    }
  }

  /**
   A failing read, or the peer's close, before the frame is complete ends the reading: the failure is reported as
   such, a close as an early end once a header was read and as a closed connection before that.
   */
  lemma {:induction false} ReadingBreaksOff(
      buf: seq<Byte>, chunks: seq<Read>, last: Read, later: seq<Read>, started: bool)
    requires AllData(chunks) && (last.Failure? || last.bytes == [])
    requires !Framed(buf + Joined(chunks))
    ensures var got := buf + Joined(chunks);
            ReadMessage(buf, chunks + [last] + later, started)
            == Done(if last.Failure? then Failed
                    else if (started || chunks != []) && HasHeader(got) then EndedEarly
                    else Closed, got, later)
    decreases |chunks|
  {
    hide Framed, FrameEnd, HasHeader;
    var all := chunks + [last] + later;
    if chunks == [] {
      assert buf + Joined(chunks) == buf;
      assert all[0] == last && all[1..] == later;
    } else {
      var next := buf + chunks[0].bytes;
      JoinedPrefix(buf, chunks, |chunks|);
      assert all[0] == chunks[0] && all[1..] == chunks[1..] + [last] + later;
      FrameStartsIn(next, buf + Joined(chunks));
      ReadingBreaksOff(next, chunks[1..], last, later, true);
    }
  }

  /** The first reads deliver the first chunk and then the rest of them. */
  lemma JoinedPrefix(buf: seq<Byte>, chunks: seq<Read>, k: nat)
    requires AllData(chunks) && 0 < k <= |chunks|
    ensures buf + Joined(chunks[..k]) == (buf + chunks[0].bytes) + Joined(chunks[1..][..k - 1])
    ensures k == |chunks| ==> buf + Joined(chunks) == (buf + chunks[0].bytes) + Joined(chunks[1..])
  {
    assert chunks[..k][1..] == chunks[1..][..k - 1];
    assert k == |chunks| ==> chunks[..k] == chunks && chunks[1..][..k - 1] == chunks[1..];
  }

  /** A buffer at the start of a stream is framed exactly when it reaches the end of the stream's frame. */
  lemma FrameStartsIn(buf: seq<Byte>, w: seq<Byte>)
    requires buf <= w
    ensures Framed(w) ==> (Framed(buf) <==> FrameEnd(w) <= |buf|)
    ensures Framed(buf) ==> Framed(w)
    ensures Framed(w) ==> HasHeader(w)
  {
    FrameIgnoresLaterBytes(buf, w);
  }

  /** Two ways of splitting one stream give the same verdict, and the same message where there is one. */
  lemma FramingIgnoresChunking(a: seq<Read>, b: seq<Read>)
    requires AllData(a) && AllData(b) && Joined(a) == Joined(b)
    ensures var x, y := ReadMessage([], a, false), ReadMessage([], b, false);
            && x.outcome == y.outcome
            && (x.outcome == Complete ==>
                  && HasHeader(x.buf) && HasHeader(y.buf) && FrameEnd(x.buf) == FrameEnd(y.buf)
                  && FrameEnd(x.buf) <= |x.buf| && FrameEnd(x.buf) <= |y.buf|
                  && x.buf[..FrameEnd(x.buf)] == y.buf[..FrameEnd(x.buf)])
  {
    hide FrameEnd, HasHeader, ReadMessage, Joined;
    var w, x, y := Joined(a), ReadMessage([], a, false), ReadMessage([], b, false);
    NothingIsNotFramed();
    assert [] + Joined(a) == w && [] + Joined(b) == w;
    ReadingStopsAtTheFrame([], a, false);
    ReadingStopsAtTheFrame([], b, false);
    JoinedStart(a, |a| - |x.rest|);
    JoinedStart(b, |b| - |y.rest|);
    assert [] + Joined(a[..|a| - |x.rest|]) == x.buf && [] + Joined(b[..|b| - |y.rest|]) == y.buf;
    SameFrame(x.buf, w);
    SameFrame(y.buf, w);
    SomethingRead(a, b);
  }

  lemma NothingIsNotFramed()
    ensures !Framed([])
  {
  }

  lemma SomethingRead(a: seq<Read>, b: seq<Read>)
    requires AllData(a) && AllData(b) && Joined(a) == Joined(b)
    ensures a == [] <==> b == []
  {
  }

  lemma SameFrame(buf: seq<Byte>, w: seq<Byte>)
    requires buf <= w
    ensures HasHeader(w) && FrameEnd(w) <= |buf| ==>
              HasHeader(buf) && FrameEnd(buf) == FrameEnd(w) && buf[..FrameEnd(w)] == w[..FrameEnd(w)]
  {
    FrameIgnoresLaterBytes(buf, w);
    assert forall k: nat :: k <= |buf| ==> buf[..k] == w[..k];
  }

  lemma {:induction false} JoinedStart(chunks: seq<Read>, k: nat)
    requires AllData(chunks) && k <= |chunks|
    ensures Joined(chunks[..k]) <= Joined(chunks)
  {
    if k > 0 {
      JoinedStart(chunks[1..], k - 1);
      assert chunks[..k][1..] == chunks[1..][..k - 1];
    }
  }

  // ---- which field declares the length ----------------------------------------------------------------

  /** The fourteen letters of content-length, each in either case, around the hyphen. */
  predicate NamesTheLength(name: seq<Byte>) {
    && |name| == 14
    && forall i :: 0 <= i < 14 ==>
         name[i] == "content-length"[i] as int || (i != 7 && name[i] == "content-length"[i] as int - 32)
  }

  /** The bytes that surround a value without being part of it: tab, line feed, form feed, return, blank. */
  predicate Blanks(s: seq<Byte>) {
    forall i :: 0 <= i < |s| ==> s[i] == 9 || s[i] == 10 || s[i] == 12 || s[i] == 13 || s[i] == 32
  }

  lemma NameMatchesIff(name: seq<Byte>)
    ensures EqIgnoreAsciiCase(name, CONTENT_LENGTH) <==> NamesTheLength(name)
  {
    if |name| == 14 {
      forall i | 0 <= i < 14
        ensures ToLower(name[i]) == CONTENT_LENGTH[i]
                <==> name[i] == "content-length"[i] as int || (i != 7 && name[i] == "content-length"[i] as int - 32)
      {
        LetterMatchesIff(name[i], i);
      }
    }
  }

  lemma LetterMatchesIff(b: Byte, i: nat)
    requires i < 14
    ensures ToLower(b) == CONTENT_LENGTH[i]
            <==> b == "content-length"[i] as int || (i != 7 && b == "content-length"[i] as int - 32)
  {
    assert CONTENT_LENGTH[i] == "content-length"[i] as int;
    assert i == 7 <==> CONTENT_LENGTH[i] == 45;
    assert i != 7 ==> 97 <= CONTENT_LENGTH[i] <= 122;
  }

  lemma BlanksAreSpace(s: seq<Byte>)
    ensures AllSpace(s) <==> Blanks(s)
  {
  }

  /**
   A line declares a length if and only if the name before its first colon is content-length in some letter case;
   the length is that of the text after the colon, whether or not the line ends with a carriage return.
   */
  lemma {:induction false} FieldDeclaresIff(name: seq<Byte>, value: seq<Byte>)
    requires Free(name, COLON)
    ensures LineLength(name + [COLON] + value)
            == if NamesTheLength(name) then Some(Length(Trim(value))) else None
  {
    hide Index, Trim, EqIgnoreAsciiCase, NamesTheLength, Length;
    var line, short := name + [COLON] + value, StripCr(value);
    assert line[|line| - 1] == if value == [] then COLON else value[|value| - 1];
    assert StripCr(line) == name + [COLON] + short;
    FirstByte(StripCr(line), COLON, |name|);
    assert StripCr(line)[..|name|] == name && StripCr(line)[|name| + 1..] == short;
    NameMatchesIff(name);
    TrimIgnoresCr(value);
  }

  lemma TrimIgnoresCr(value: seq<Byte>)
    ensures Trim(StripCr(value)) == Trim(value)
  {
    var short := StripCr(value);
    var r := Trim(short);
    var start: nat :| IsCore(short, r, start);
    if short != value {
      assert value == short + [CR];
      assert value[..start] == short[..start] && value[start..start + |r|] == short[start..start + |r|];
      assert value[start + |r|..] == short[start + |r|..] + [CR];
      assert IsCore(value, r, start);
    }
    TrimIsUnique(value, r, Trim(value));
  }

  /** A line without a colon declares none. */
  lemma NoColonDeclaresNone(line: seq<Byte>)
    requires Free(line, COLON)
    ensures LineLength(line) == None
  {
    hide Index;
    NoSuchByte(StripCr(line), COLON);
  }

  /** The line is a Content-Length field with this value. */
  ghost predicate Declares(line: seq<Byte>, value: seq<Byte>) {
    && |line| >= 15 && NamesTheLength(line[..14]) && line[14] == 58 && value == line[15..]
  }

  lemma {:induction false} LineDeclaresIff(line: seq<Byte>)
    ensures LineLength(line).Some? <==> |line| >= 15 && Declares(line, line[15..])
    ensures LineLength(line).Some? ==> LineLength(line).value == Length(Trim(line[15..]))
  {
    hide LineLength, Length, Trim, NamesTheLength, Index;
    if Free(line, COLON) {
      NoColonDeclaresNone(line);
      assert |line| >= 15 ==> line[14] in line;
    } else {
      var n := Index(line, [COLON]);
      ColonSplits(line, n);
      FieldDeclaresIff(line[..n], line[n + 1..]);
      assert line == line[..n] + [COLON] + line[n + 1..];
      NamedLineSplits(line, n);
    }
  }

  lemma ColonSplits(line: seq<Byte>, n: int)
    requires n == Index(line, [COLON]) && !Free(line, COLON)
    ensures 0 <= n < |line| && line[n] == COLON && Free(line[..n], COLON)
  {
    var k :| 0 <= k < |line| && line[k] == COLON;
    assert line[k..k + 1] == [COLON];
    assert OccursAt(line, [COLON], k);
    assert line[n..n + 1][0] == COLON;
    forall j | 0 <= j < n
      ensures line[j] != COLON
    {
      assert !OccursAt(line, [COLON], j);
      assert line[j..j + 1] == [line[j]];
    }
  }

  /** The first colon of a Content-Length field is the one after the name. */
  lemma NamedLineSplits(line: seq<Byte>, n: nat)
    requires n < |line| && line[n] == COLON && Free(line[..n], COLON)
    ensures NamesTheLength(line[..n]) <==> |line| >= 15 && NamesTheLength(line[..14]) && line[14] == 58
    ensures NamesTheLength(line[..n]) ==> n == 14
  {
    if |line| >= 15 && NamesTheLength(line[..14]) && line[14] == 58 {
      assert forall i :: 0 <= i < 14 ==> line[i] == line[..14][i] != COLON;
      assert forall k :: 0 <= k < n ==> line[k] == line[..n][k] != COLON;
    }
  }

  /** The length is the one declared by the first line that declares any, and 0 when none does. */
  lemma {:induction false} FirstFieldDeclares(lines: seq<seq<Byte>>)
    requires lines != [] && forall i :: 0 <= i < |lines| ==> Free(lines[i], LF)
    ensures (forall i, value :: 0 <= i < |lines| ==> !Declares(lines[i], value)) ==> ContentLength(Join(LF, lines)) == 0
    ensures forall i, value :: 0 <= i < |lines| && Declares(lines[i], value)
                               && (forall j, other :: 0 <= j < i ==> !Declares(lines[j], other))
                               ==> ContentLength(Join(LF, lines)) == Length(Trim(value))
  {
    hide LineLength, Declares, Length, Trim;
    forall i | 0 <= i < |lines|
      ensures LineLength(lines[i]).Some? <==> exists value :: Declares(lines[i], value)
      ensures forall value :: Declares(lines[i], value) ==> LineLength(lines[i]) == Some(Length(Trim(value)))
    {
      DeclaringLine(lines[i]);
    }
    FirstLengthCounts(lines);
  }

  lemma DeclaringLine(line: seq<Byte>)
    ensures LineLength(line).Some? <==> exists value :: Declares(line, value)
    ensures forall value :: Declares(line, value) ==> LineLength(line) == Some(Length(Trim(value)))
  {
    hide LineLength, Length, Trim, NamesTheLength;
    LineDeclaresIff(line);
  }

  lemma {:induction false} FirstLengthCounts(lines: seq<seq<Byte>>)
    requires lines != [] && forall i :: 0 <= i < |lines| ==> Free(lines[i], LF)
    ensures (forall i :: 0 <= i < |lines| ==> LineLength(lines[i]).None?) ==> ContentLength(Join(LF, lines)) == 0
    ensures forall i :: 0 <= i < |lines| && LineLength(lines[i]).Some?
                        && (forall j :: 0 <= j < i ==> LineLength(lines[j]).None?)
                        ==> ContentLength(Join(LF, lines)) == LineLength(lines[i]).value
  {
    hide LineLength;
    var s, line := Join(LF, lines), lines[0];
    LineLengthsFit(line);
    if |lines| == 1 {
      NoSuchByte(s, LF);
    } else {
      FirstLengthCounts(lines[1..]);
      FirstLine(line, Join(LF, lines[1..]));
      assert s[..|line|] == line && s[|line| + 1..] == Join(LF, lines[1..]);
      forall i | 0 <= i < |lines| && LineLength(lines[i]).Some?
                 && (forall j :: 0 <= j < i ==> LineLength(lines[j]).None?)
        ensures ContentLength(s) == LineLength(lines[i]).value
      {
        if i > 0 {
          assert lines[1..][i - 1] == lines[i];
          assert LineLength(lines[0]).None?;
          assert forall j :: 0 <= j < i - 1 ==> lines[1..][j] == lines[j + 1];
        }
      }
    }
  }

  lemma LineLengthsFit(line: seq<Byte>)
    ensures LineLength(line).Some? ==> LineLength(line).value <= USIZE_MAX
  {
  }

  lemma FirstLine(line: seq<Byte>, rest: seq<Byte>)
    requires Free(line, LF)
    ensures Index(line + [LF] + rest, [LF]) == |line|
  {
    var s := line + [LF] + rest;
    FirstByte(s, LF, |line|);
  }

  /** The decimal digits of n, without leading zeros. */
  function Printed(n: nat): (s: seq<Byte>)
    ensures s != [] && AllDigits(s)
  {
    if n < 10 then [48 + n] else Printed(n / 10) + [48 + n % 10]
  }

  /** Printed numbers read back, capped at the largest 64-bit word. */
  lemma {:induction false} PrintedReadsBack(n: nat)
    ensures Decimal(Printed(n)) == n
    ensures Length(Printed(n)) == if n > 18446744073709551615 then 18446744073709551615 else n
  {
    if n >= 10 {
      var head := Printed(n / 10);
      PrintedReadsBack(n / 10);
      assert Printed(n)[..|Printed(n)| - 1] == head;
      assert Printed(n)[|Printed(n)| - 1] == 48 + n % 10;
    }
  }

  /**
   A Content-Length field, in any letter case and with white space around its digits, declares their
   decimal value, capped at the largest 64-bit word; text that is not all digits declares 0.
   */
  lemma DeclaredDigits(name: seq<Byte>, before: seq<Byte>, digits: seq<Byte>, after: seq<Byte>)
    requires NamesTheLength(name) && Blanks(before) && Blanks(after) && digits != []
    requires !Blanks([digits[0]]) && !Blanks([digits[|digits| - 1]])
    ensures (exists i :: 0 <= i < |digits| && !(48 <= digits[i] <= 57))
            ==> LineLength(name + [COLON] + (before + digits + after)) == Some(0)
    ensures forall n: nat :: digits == Printed(n) ==>
              LineLength(name + [COLON] + (before + digits + after))
              == Some(if n > 18446744073709551615 then 18446744073709551615 else n)
  {
    hide Index, Trim, LineLength, Printed, Decimal;
    BlanksAreSpace(before);
    BlanksAreSpace(after);
    BlanksAreSpace([digits[0]]);
    BlanksAreSpace([digits[|digits| - 1]]);
    TrimmedText(before, digits, after);
    NameIsColonFree(name);
    FieldDeclaresIff(name, before + digits + after);
    forall n: nat | digits == Printed(n)
      ensures Length(digits) == if n > 18446744073709551615 then 18446744073709551615 else n
    {
      PrintedReadsBack(n);
    }
  }

  lemma NameIsColonFree(name: seq<Byte>)
    requires NamesTheLength(name)
    ensures Free(name, COLON)
  {
    forall i | 0 <= i < 14
      ensures name[i] != COLON
    {
      LetterMatchesIff(name[i], i);
      assert CONTENT_LENGTH[i] != 58;
    }
  }

  lemma TrimmedText(before: seq<Byte>, text: seq<Byte>, after: seq<Byte>)
    requires AllSpace(before) && AllSpace(after) && text != []
    requires !AllSpace([text[0]]) && !AllSpace([text[|text| - 1]])
    ensures Trim(before + text + after) == text
  {
    var s := before + text + after;
    assert s[|before|..|before| + |text|] == text;
    assert s[..|before|] == before && s[|before| + |text|..] == after;
    assert IsCore(s, text, |before|);
    TrimIsUnique(s, Trim(s), text);
  }

  // ---- the frame in numbers -----------------------------------------------------------------------------

  /** The two line ends that close a header, first met after the text. */
  ghost predicate ClosesAfter(head: seq<Byte>) {
    forall k :: 0 <= k < |head| ==> !OccursAt(head + [13, 10, 13, 10], [13, 10, 13, 10], k)
  }

  lemma EndsIn(head: seq<Byte>, tail: seq<Byte>)
    ensures OccursAt(head + tail, tail, |head|)
  {
  }

  /** A message is its header, the empty line that closes it and as many bytes as the header declares. */
  lemma FrameEndIs(head: seq<Byte>, body: seq<Byte>)
    requires ClosesAfter(head)
    ensures var w := head + [13, 10, 13, 10] + body;
            HasHeader(w) && FrameEnd(w) == |head| + 4 + ContentLength(head + [13, 10, 13, 10])
  {
    hide ContentLength, Index, OccursAt;
    var header := head + [13, 10, 13, 10];
    assert OccursAt(header, HEADER_END, |head|) by {
      EndsIn(head, HEADER_END);
    }
    IndexIs(header, HEADER_END, |head|);
    IndexInPrefix(header, header + body, HEADER_END);
    assert (header + body)[..|head| + 4] == header;
  }

  /** POST /fraud-score HTTP/1.1 */
  const POST_LINE: seq<Byte> := [80, 79, 83, 84, 32, 47, 102, 114, 97, 117, 100, 45, 115, 99, 111, 114, 101, 32, 72, 84,
                                 84, 80, 47, 49, 46, 49]

  /** Content-Length: 5 */
  const LENGTH_LINE: seq<Byte> := [67, 111, 110, 116, 101, 110, 116, 45, 76, 101, 110, 103, 116, 104, 58, 32, 53]

  const POST_HEAD: seq<Byte> := POST_LINE + [CR, LF] + LENGTH_LINE

  lemma DoesNotClose(s: seq<Byte>, k: nat)
    requires k + 4 <= |s| && (s[k] != 13 || s[k + 2] != 13)
    ensures !OccursAt(s, [13, 10, 13, 10], k)
  {
    assert s[k..k + 4][0] == s[k] && s[k..k + 4][2] == s[k + 2];
  }

  lemma PostCloses()
    ensures ClosesAfter(POST_HEAD)
  {
    hide OccursAt;
    assert CR !in POST_LINE && CR !in LENGTH_LINE;
    var header := POST_HEAD + [13, 10, 13, 10];
    assert header[27] == 10 && header[28] == 67;
    forall k | 0 <= k < |POST_HEAD|
      ensures !OccursAt(header, [13, 10, 13, 10], k)
    {
      if k < 26 {
        assert header[k] == POST_LINE[k] && POST_LINE[k] in POST_LINE;
      } else if k > 27 {
        assert header[k] == LENGTH_LINE[k - 28] && LENGTH_LINE[k - 28] in LENGTH_LINE;
      }
      DoesNotClose(header, k);
    }
  }

  lemma FourLines(a: seq<Byte>, b: seq<Byte>, c: seq<Byte>, d: seq<Byte>)
    ensures Join(LF, [a, b, c, d]) == a + [LF] + (b + [LF] + (c + [LF] + d))
  {
    assert [a, b, c, d][1..] == [b, c, d] && [b, c, d][1..] == [c, d] && [c, d][1..] == [d];
    assert Join(LF, [d]) == d;
    assert Join(LF, [c, d]) == c + [LF] + d;
    assert Join(LF, [b, c, d]) == b + [LF] + (c + [LF] + d);
  }

  lemma PostLines()
    ensures Free(POST_LINE + [CR], LF) && Free(LENGTH_LINE + [CR], LF)
    ensures Declares(LENGTH_LINE + [CR], [32, 53, 13])
    ensures forall other :: !Declares(POST_LINE + [CR], other)
  {
    assert LF !in POST_LINE && LF !in LENGTH_LINE;
    var line := POST_LINE + [CR];
    assert line[..14][0] == 80;
    assert LENGTH_LINE[15..] == [32, 53];
  }

  lemma FiveIsDeclared()
    ensures Length(Trim([32, 53, 13])) == 5
  {
    hide Trim;
    TrimmedText([32], [53], [13]);
    assert [32] + [53] + [13] == [32, 53, 13];
    PrintedReadsBack(5);
  }

  lemma PostDeclaresFive()
    ensures ContentLength(POST_HEAD + [13, 10, 13, 10]) == 5
  {
    hide ContentLength, Trim, LineLength, Join, Declares, Length;
    var lines := [POST_LINE + [CR], LENGTH_LINE + [CR], [CR], []];
    FourLines(lines[0], lines[1], lines[2], lines[3]);
    assert Join(LF, lines) == POST_HEAD + [13, 10, 13, 10];
    PostLines();
    FirstFieldDeclares(lines);
    FiveIsDeclared();
    assert Declares(lines[1], [32, 53, 13]);
  }

  /** The header alone is not the message: the five bytes of the body are waited for. */
  lemma PostWaitsForItsBody(body: seq<Byte>)
    requires |body| == 5
    ensures var header := POST_HEAD + [13, 10, 13, 10];
            ReadMessage([], [Bytes(header), Bytes(body)], false) == Done(Complete, header + body, [])
  {
    hide ContentLength, FindHeaderEnd;
    var header := POST_HEAD + [13, 10, 13, 10];
    PostCloses();
    PostDeclaresFive();
    FrameEndIs(POST_HEAD, []);
    FrameEndIs(POST_HEAD, body);
    assert [] + header == header && header + [] == header;
    var chunks := [Bytes(header), Bytes(body)];
    assert chunks[1..] == [Bytes(body)] && [Bytes(body)][1..] == [];
    assert !Framed(header) && Framed(header + body);
  }
}
