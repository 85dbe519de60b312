/** The responses of the web server garn: u32_to_str, str_append, respond and the body sender of route_file. */
module Http {
  import opened Bytes
  import opened Decimal
  import opened CString

  const CRLF: string := "\r\n"
  const LENGTH_FIELD: string := "Content-Length: "
  const CHUNK_SIZE: nat := 128

  const TYPE_SEP: string := "\r\nContent-Type: "
  const LENGTH_SEP: string := "\r\nContent-Length: "
  const END_SEP: string := "\r\nConnection: close\r\n\r\n"

  /** The header bytes respond sends. */
  function Header(status: u32, reason: string, contentType: string, len: u32): string {
    StatusLine(status, reason) + TYPE_SEP + contentType + LENGTH_SEP + Numeral(len) + END_SEP
  }

  function StatusLine(status: u32, reason: string): string { "HTTP/1.0 " + Numeral(status) + " " + reason }

  function Concat(pieces: seq<string>): string {
    if pieces == [] then "" else Concat(pieces[..|pieces| - 1]) + pieces[|pieces| - 1]
  }

  // ---- a reader of responses (sections 5, 6 and 10.4 of RFC 1945) ---------------------

  /** Length of the first line; |s| when no CR-LF follows. */
  function LineLen(s: string): (k: nat)
    ensures k <= |s|
  {
    if |s| < 2 || (s[0] == '\r' && s[1] == '\n') then (if |s| < 2 then |s| else 0) else 1 + LineLen(s[1..])
  }

  datatype Reply = Reply(length: Option<nat>, body: string)

  /** The value of a Content-Length line, if this is one. */
  function LengthOf(line: string): Option<nat> {
    if LENGTH_FIELD <= line && AllDigits(line[|LENGTH_FIELD|..]) && |line| > |LENGTH_FIELD|
    then Some(Val(line[|LENGTH_FIELD|..])) else None
  }

  /** Header lines up to the first empty one; the first Content-Length counts; what follows is the body. */
  function ReadReply(s: string, length: Option<nat>): Option<Reply>
    decreases |s|
  {
    var k := LineLen(s);
    if k + 2 > |s| then None
    else if k == 0 then Some(Reply(length, s[2..]))
    else ReadReply(s[k + 2..], if length.None? then LengthOf(s[..k]) else length)
  }

  predicate OneLine(s: string) { '\r' !in s }

  lemma {:induction false} FirstLine(line: string, rest: string)
    requires OneLine(line)
    ensures LineLen(line + CRLF + rest) == |line|
  {
    var s := line + CRLF + rest;
    if line == "" {
      assert s[0] == '\r' && s[1] == '\n';
    } else {
      FirstLine(line[1..], rest);
      assert s[1..] == line[1..] + CRLF + rest;
      assert s[0] == line[0] && line[0] in line;
    }
  }

  lemma SkipLine(line: string, rest: string, length: Option<nat>)
    requires OneLine(line) && line != ""
    ensures ReadReply(line + CRLF + rest, length) == ReadReply(rest, if length.None? then LengthOf(line) else length)
  {
    FirstLine(line, rest);
    var s := line + CRLF + rest;
    assert s[..|line|] == line && s[|line| + 2..] == rest;
  }

  lemma EndOfHeader(rest: string, length: Option<nat>)
    ensures ReadReply(CRLF + rest, length) == Some(Reply(length, rest))
  {
    FirstLine("", rest);
    assert "" + CRLF + rest == CRLF + rest;
    assert (CRLF + rest)[2..] == rest;
  }

  function TypeLine(contentType: string): string { "Content-Type: " + contentType }

  function LengthLine(len: u32): string { LENGTH_FIELD + Numeral(len) }

  const CLOSE_LINE: string := "Connection: close"

  lemma Separators()
    ensures TYPE_SEP == CRLF + "Content-Type: " && LENGTH_SEP == CRLF + LENGTH_FIELD
    ensures END_SEP == CRLF + CLOSE_LINE + CRLF + CRLF
  {
  }

  lemma Regroup(first: string, ct: string, n: string, body: string, e: string, t: string, l: string, c: string)
    ensures first + (e + t) + ct + (e + l) + n + (e + c + e + e) + body ==
      first + e + ((t + ct) + e + ((l + n) + e + (c + e + (e + body))))
  {
    var last := c + e + (e + body);
    assert (e + c + e + e) + body == e + last;
    assert (e + l) + n + (e + last) == e + ((l + n) + e + last);
    assert (e + t) + ct + (e + ((l + n) + e + last)) == e + ((t + ct) + e + ((l + n) + e + last));
  }

  lemma HeaderLines(status: u32, reason: string, contentType: string, len: u32, body: string)
    ensures Header(status, reason, contentType, len) + body ==
      StatusLine(status, reason) + CRLF +
      (TypeLine(contentType) + CRLF + (LengthLine(len) + CRLF + (CLOSE_LINE + CRLF + (CRLF + body))))
  {
    Separators();
    Regroup(StatusLine(status, reason), contentType, Numeral(len), body, CRLF, "Content-Type: ", LENGTH_FIELD, CLOSE_LINE);
  }

  lemma NoLengthHere(status: u32, reason: string, contentType: string)
    ensures LengthOf(StatusLine(status, reason)).None? && LengthOf(TypeLine(contentType)).None?
    ensures LengthOf(CLOSE_LINE).None?
  {
    assert StatusLine(status, reason)[0] == 'H' && LENGTH_FIELD[0] == 'C';
    assert TypeLine(contentType)[8] == 'T' && LENGTH_FIELD[8] == 'L';
    assert CLOSE_LINE[3] == 'n' && LENGTH_FIELD[3] == 't';
  }

  lemma NumeralIsOneLine(v: nat)
    ensures OneLine(Numeral(v))
  {
    NumeralRoundTrip(v);
  }

  lemma LengthReads(len: u32)
    ensures LengthOf(LengthLine(len)) == Some(len)
  {
    NumeralRoundTrip(len);
    assert LengthLine(len)[|LENGTH_FIELD|..] == Numeral(len);
  }

  /** Any header respond sends, followed by any body, reads back as the length it was given and exactly that body. */
  lemma HeaderReadsBack(status: u32, reason: string, contentType: string, len: u32, body: string)
    requires OneLine(reason) && OneLine(contentType)
    ensures ReadReply(Header(status, reason, contentType, len) + body, None) == Some(Reply(Some(len), body))
  {
    hide ReadReply, Numeral, LengthOf;
    HeaderLines(status, reason, contentType, len, body);
    NoLengthHere(status, reason, contentType);
    NumeralIsOneLine(status);
    NumeralIsOneLine(len);
    LengthReads(len);
    var last := CLOSE_LINE + CRLF + (CRLF + body);
    var third := LengthLine(len) + CRLF + last;
    SkipLine(StatusLine(status, reason), TypeLine(contentType) + CRLF + third, None);
    SkipLine(TypeLine(contentType), third, None);
    SkipLine(LengthLine(len), last, None);
    SkipLine(CLOSE_LINE, CRLF + body, Some(len));
    EndOfHeader(body, Some(len));
  }

  /** The lines of a header, up to the first empty one. */
  function Lines(s: string): seq<string>
    decreases |s|
  {
    var k := LineLen(s);
    if k + 2 > |s| || k == 0 then [] else [s[..k]] + Lines(s[k + 2..])
  }

  lemma NextLine(line: string, rest: string)
    requires OneLine(line) && line != ""
    ensures Lines(line + CRLF + rest) == [line] + Lines(rest)
  {
    FirstLine(line, rest);
    var s := line + CRLF + rest;
    assert s[..|line|] == line && s[|line| + 2..] == rest;
  }

  lemma NoMoreLines(rest: string)
    ensures Lines(CRLF + rest) == []
  {
    FirstLine("", rest);
    assert "" + CRLF + rest == CRLF + rest;
  }

  /** The four lines of any header respond sends. */
  lemma HeaderIs(status: u32, reason: string, contentType: string, len: u32, body: string)
    requires OneLine(reason) && OneLine(contentType)
    ensures Lines(Header(status, reason, contentType, len) + body) ==
      [StatusLine(status, reason), TypeLine(contentType), LengthLine(len), CLOSE_LINE]
  {
    hide Lines, Numeral;
    HeaderLines(status, reason, contentType, len, body);
    NumeralIsOneLine(status);
    NumeralIsOneLine(len);
    var last := CLOSE_LINE + CRLF + (CRLF + body);
    var third := LengthLine(len) + CRLF + last;
    NextLine(StatusLine(status, reason), TypeLine(contentType) + CRLF + third);
    NextLine(TypeLine(contentType), third);
    NextLine(LengthLine(len), last);
    NextLine(CLOSE_LINE, CRLF + body);
    NoMoreLines(body);
  }

  // ---- what route_file sends --------------------------------------------------------

  function Min(a: nat, b: nat): nat { if a < b then a else b }

  /** The body in pieces of CHUNK_SIZE from offset `sent` on. */
  function Chunks(body: string, sent: nat): seq<string>
    requires sent <= |body|
    decreases |body| - sent
  {
    if sent == |body| then []
    else
      var chunk := Min(|body| - sent, CHUNK_SIZE);
      [body[sent..sent + chunk]] + Chunks(body, sent + chunk)
  }

  lemma {:induction false} ConcatAppend(a: seq<string>, b: seq<string>)
    ensures Concat(a + b) == Concat(a) + Concat(b)
    decreases |b|
  {
    if b == [] {
      assert a + b == a;
    } else {
      var b' := b[..|b| - 1];
      ConcatAppend(a, b');
      assert (a + b)[..|a + b| - 1] == a + b';
      assert Concat(a + b) == Concat(a + b') + b[|b| - 1];
      assert Concat(b) == Concat(b') + b[|b| - 1];
    }
  }

  lemma ConcatOne(p: string)
    ensures Concat([p]) == p
  {
    assert [p][..0] == [];
  }

  lemma NoPieces()
    ensures Concat([]) == ""
  {
  }

  /** The pieces are non-empty, at most 128 bytes each, as few as that allows, and together are the body. */
  lemma {:induction false} ChunksExact(body: string, sent: nat)
    requires sent <= |body|
    ensures Concat(Chunks(body, sent)) == body[sent..]
    ensures forall p :: p in Chunks(body, sent) ==> 0 < |p| <= CHUNK_SIZE
    ensures |Chunks(body, sent)| == (|body| - sent + CHUNK_SIZE - 1) / CHUNK_SIZE
    decreases |body| - sent
  {
    hide Concat;
    if sent < |body| {
      var chunk := Min(|body| - sent, CHUNK_SIZE);
      var piece := body[sent..sent + chunk];
      ChunksExact(body, sent + chunk);
      ConcatOne(piece);
      ConcatAppend([piece], Chunks(body, sent + chunk));
      assert Chunks(body, sent) == [piece] + Chunks(body, sent + chunk);
      assert body[sent..] == piece + body[sent + chunk..];
    } else {
      NoPieces();
    }
  }

  /** Content-Length is true: a client that reads the header from the bytes on the wire learns exactly how many body
      bytes follow, and those are the first len bytes of the buffer. */
  lemma LengthTruth(status: u32, reason: string, contentType: string, body: string)
    requires OneLine(reason) && OneLine(contentType) && |body| < M32
    ensures ReadReply(Concat([Header(status, reason, contentType, |body|)] + Chunks(body, 0)), None)
      == Some(Reply(Some(|body|), body))
  {
    hide ReadReply, Header, Chunks, Concat;
    var h := Header(status, reason, contentType, |body|);
    ChunksExact(body, 0);
    ConcatOne(h);
    ConcatAppend([h], Chunks(body, 0));
    assert body[0..] == body;
    HeaderReadsBack(status, reason, contentType, |body|, body);
  }

  // ---- the code ---------------------------------------------------------------------

  /** The digits of value, last one first. */
  method ReversedDigits(value: u32, temp: array<char>) returns (i: nat)
    requires value > 0 && temp.Length == 10
    modifies temp
    ensures i == |Digits(value)| <= 10
    ensures forall k :: 0 <= k < i ==> temp[k] == Digits(value)[i - 1 - k]
  {
    TenDigits(value);
    ghost var d := Digits(value);
    var v: nat := value;
    i := 0;
    while v > 0 && i < 10
      invariant |d| == |Digits(v)| + i && d[..|d| - i] == Digits(v)
      invariant forall k :: 0 <= k < i ==> temp[k] == d[|d| - 1 - k]
      decreases v
    {
      assert d[|d| - 1 - i] == d[..|d| - i][|d| - 1 - i];
      assert d[..|d| - i - 1] == d[..|d| - i][..|d| - i - 1];
      temp[i] := DigitChar(v % 10);
      i := i + 1;
      v := v / 10;
    }
    assert v > 0 ==> |Digits(v)| > 0;
  }

  /** No uint32_t has more than ten digits, so none is cut off. */
  lemma TenDigits(value: u32)
    ensures |Digits(value)| <= 10 && 0 < |Numeral(value)| <= 10
  {
    hide Digits;
    assert Pow10(10) == 10_000_000_000;
    hide Pow10;
    DigitCount(value, 10);
    NumeralRoundTrip(value);
  }

  method U32ToStr(value: u32, buffer: array<char>)
    requires buffer.Length >= 11
    modifies buffer
    ensures Holds(buffer, |Numeral(value)|, Numeral(value))
  {
    if value == 0 {
      buffer[0] := '0';
      buffer[1] := NUL;
      assert buffer[..1] == "0";
      return;
    }
    var temp := new char[10];
    var i := ReversedDigits(value, temp);
    NumeralRoundTrip(value);
    CopyReversed(temp, i, buffer, Digits(value));
  }

  /** u32_to_str's second loop. */
  method CopyReversed(temp: array<char>, i: nat, buffer: array<char>, ghost d: string)
    requires i == |d| <= temp.Length && i < buffer.Length && temp != buffer && AllDigits(d)
    requires forall k :: 0 <= k < i ==> temp[k] == d[i - 1 - k]
    modifies buffer
    ensures Holds(buffer, |d|, d)
  {
    var j := 0;
    while j < i
      invariant j <= i
      invariant forall k :: 0 <= k < j ==> buffer[k] == d[k]
    {
      buffer[j] := temp[i - j - 1];
      j := j + 1;
    }
    buffer[i] := NUL;
  }

  /** Append the text s that src begins with, up to its NUL; the NUL is not copied. */
  method StrAppend(buf: array<char>, off: nat, src: seq<char>, ghost s: string) returns (n: nat)
    requires s + [NUL] <= src && NUL !in s && off + |s| <= buf.Length
    modifies buf
    ensures n == off + |s| && buf[..n] == old(buf[..off]) + s
  {
    n := off;
    assert forall i :: 0 <= i < |s| ==> src[i] == s[i] && s[i] in s;
    assert src[|s|] == (s + [NUL])[|s|];
    while src[n - off] != NUL
      invariant off <= n <= off + |s|
      invariant buf[..n] == old(buf[..off]) + s[..n - off]
      decreases off + |s| - n
    {
      assert s[..n - off + 1] == s[..n - off] + [src[n - off]];
      buf[n] := src[n - off];
      n := n + 1;
    }
    assert s[..n - off] == s;
  }

  /** str_append of a string constant. */
  method AppendText(buf: array<char>, off: nat, s: string) returns (n: nat)
    requires NUL !in s && off + |s| <= buf.Length
    modifies buf
    ensures n == off + |s| && buf[..n] == old(buf[..off]) + s
  {
    n := StrAppend(buf, off, s + [NUL], s);
  }

  /** u32_to_str and str_append, as respond uses them. */
  method AppendNumber(buf: array<char>, off: nat, value: u32) returns (n: nat)
    requires off + |Numeral(value)| <= buf.Length
    modifies buf
    ensures n == off + |Numeral(value)| && buf[..n] == old(buf[..off]) + Numeral(value)
  {
    var num := new char[12];
    U32ToStr(value, num);
    ghost var k := |Numeral(value)|;
    assert num[..][..k + 1] == num[..k] + [num[k]];
    n := StrAppend(buf, off, num[..], Numeral(value));
  }

  /** The client's socket: the pieces written to it. */
  class Client {
    var pieces: seq<string>

    constructor ()
      ensures pieces == []
    {
      pieces := [];
    }

    method Write(data: string)
      modifies this
      ensures pieces == old(pieces) + [data]
    {
      pieces := pieces + [data];
    }
  }

  method BuildHeader(hdr: array<char>, status: u32, reason: string, contentType: string, bodyLen: u32) returns (n: nat)
    requires NUL !in reason && NUL !in contentType
    requires |Header(status, reason, contentType, bodyLen)| <= hdr.Length
    modifies hdr
    ensures n == |Header(status, reason, contentType, bodyLen)| && hdr[..n] == Header(status, reason, contentType, bodyLen)
  {
    hide Numeral, StatusLine;
    n := BuildStatus(hdr, status, reason);
    ghost var first := StatusLine(status, reason);
    n := AppendField(hdr, n, TYPE_SEP, contentType, first);
    n := AppendText(hdr, n, LENGTH_SEP);
    n := AppendNumber(hdr, n, bodyLen);
    n := AppendText(hdr, n, END_SEP);
  }

  method BuildStatus(hdr: array<char>, status: u32, reason: string) returns (n: nat)
    requires NUL !in reason && |StatusLine(status, reason)| <= hdr.Length
    modifies hdr
    ensures n == |StatusLine(status, reason)| && hdr[..n] == StatusLine(status, reason)
  {
    hide Numeral;
    n := AppendText(hdr, 0, "HTTP/1.0 ");
    n := AppendNumber(hdr, n, status);
    n := AppendText(hdr, n, " ");
    n := AppendText(hdr, n, reason);
  }

  method AppendField(buf: array<char>, off: nat, sep: string, value: string, ghost before: string) returns (n: nat)
    requires NUL !in sep && NUL !in value && off + |sep| + |value| <= buf.Length && buf[..off] == before
    modifies buf
    ensures n == off + |sep| + |value| && buf[..n] == before + sep + value
  {
    n := AppendText(buf, off, sep);
    n := AppendText(buf, n, value);
  }

  /** body is None where the source passes a null pointer. */
  method Respond(client: Client, status: u32, reason: string, contentType: string, body: Option<string>, bodyLen: u32)
    requires NUL !in reason && NUL !in contentType
    requires |Header(status, reason, contentType, bodyLen)| <= 256
    requires body.Some? ==> |body.value| == bodyLen
    modifies client
    ensures client.pieces == old(client.pieces) + [Header(status, reason, contentType, bodyLen)] +
      (if body.Some? && bodyLen != 0 then [body.value] else [])
  {
    hide Header;
    var hdr := new char[256];
    var n := BuildHeader(hdr, status, reason, contentType, bodyLen);
    client.Write(hdr[..n]);
    if bodyLen != 0 && body.Some? {
      client.Write(body.value);
    }
  }

  function Ext(name: string): string {
    if name == "" then ""
    else
      var last := |name| - 1;
      if name[last] != '.' && '.' in name[..last] then Ext(name[..last]) + [name[last]] else ""
  }

  /** The part of a name after its last dot; empty without a dot. */
  method ExtOf(name: string) returns (ext: string)
    ensures ext == Ext(name) && '.' !in ext
    ensures if '.' in name then |ext| < |name| && "." + ext == name[|name| - |ext| - 1..] else ext == ""
  {
    var dot := 0;
    var p := 0;
    while p < |name|
      invariant p <= |name| && LastDot(name[..p], dot)
    {
      NextDot(name, p, dot);
      if name[p] == '.' {
        dot := p + 1;
      }
      p := p + 1;
    }
    assert name[..p] == name;
    ext := if dot > 0 then name[dot..] else "";
  }

  /** dot is the index after the last dot of s, 0 (for the null pointer) without one. */
  predicate LastDot(s: string, dot: nat) {
    if dot == 0 then '.' !in s && Ext(s) == ""
    else dot <= |s| && s[dot - 1] == '.' && '.' !in s[dot..] && Ext(s) == s[dot..]
  }

  lemma NextDot(name: string, p: nat, dot: nat)
    requires p < |name| && LastDot(name[..p], dot)
    ensures LastDot(name[..p + 1], if name[p] == '.' then p + 1 else dot)
  {
    var s := name[..p + 1];
    assert s[..p] == name[..p];
    if name[p] != '.' {
      if dot > 0 {
        assert s[dot..] == name[..p][dot..] + [name[p]];
        assert name[..p][dot - 1] in name[..p];
      }
    }
  }

  /** The type a browser is told for an extension. */
  function ContentTypeFor(ext: string): (r: string)
    ensures OneLine(r) && NUL !in r && |r| <= 25
    ensures ext in {"htm", "HTM", "html", "HTML"} <==> r == "text/html; charset=utf-8"
    ensures ext in {"txt", "TXT"} <==> r == "text/plain; charset=utf-8"
    ensures ext !in {"htm", "HTM", "html", "HTML", "txt", "TXT"} <==> r == "application/octet-stream"
  {
    if ext == "txt" || ext == "TXT" then "text/plain; charset=utf-8"
    else if ext == "htm" || ext == "HTM" || ext == "html" || ext == "HTML" then "text/html; charset=utf-8"
    else "application/octet-stream"
  }

  lemma HeaderFits(status: u32, reason: string, contentType: string, len: u32)
    requires |reason| <= 9 && |contentType| <= 25
    ensures |Header(status, reason, contentType, len)| <= 256
  {
    TenDigits(status);
    TenDigits(len);
  }

  /** What a client sees of a file. */
  function FileReply(name: string, body: string): seq<string>
    requires |body| < M32
  {
    [Header(200, "OK", ContentTypeFor(Ext(name)), |body|)] + Chunks(body, 0)
  }

  const NOT_FOUND: string := "Not Found"

  function NotFoundReply(): seq<string> {
    [Header(404, NOT_FOUND, "text/plain", |NOT_FOUND|)] + [NOT_FOUND]
  }

  /** pieces make a reply with this status line and content type, whose announced length is that of its body. */
  ghost predicate Replies(pieces: seq<string>, status: string, contentType: string, body: string) {
    var s := Concat(pieces);
    && ReadReply(s, None) == Some(Reply(Some(|body|), body))
    && |Lines(s)| == 4 && Lines(s)[0] == status && Lines(s)[1] == "Content-Type: " + contentType
    && Lines(s)[3] == "Connection: close"
  }

  /** Either reply of route_file carries its true length. */
  lemma RepliesRead(name: string, body: string)
    requires |body| < M32
    ensures Replies(FileReply(name, body), "HTTP/1.0 200 OK", ContentTypeFor(Ext(name)), body)
    ensures Replies(NotFoundReply(), "HTTP/1.0 404 Not Found", "text/plain", "Not Found")
  {
    hide ReadReply, Lines, Header, Ext, ContentTypeFor, Concat, Chunks, Numeral, StatusLine, Replies;
    assert OneLine("OK") && OneLine(NOT_FOUND) && OneLine("text/plain");
    StatusLines();
    PiecesRead(200, "OK", ContentTypeFor(Ext(name)), body);
    OneChunk(NOT_FOUND);
    PiecesRead(404, NOT_FOUND, "text/plain", NOT_FOUND);
  }

  lemma StatusLines()
    ensures StatusLine(200, "OK") == "HTTP/1.0 200 OK" && StatusLine(404, "Not Found") == "HTTP/1.0 404 Not Found"
  {
    TwoNumerals();
    hide Numeral;
  }

  lemma TwoNumerals()
    ensures Numeral(200) == "200" && Numeral(404) == "404"
  {
    assert Digits(2) == "2" && Digits(20) == "20" && Digits(4) == "4" && Digits(40) == "40";
  }

  lemma PiecesRead(status: u32, reason: string, contentType: string, body: string)
    requires OneLine(reason) && OneLine(contentType) && |body| < M32
    ensures Replies([Header(status, reason, contentType, |body|)] + Chunks(body, 0), StatusLine(status, reason), contentType, body)
  {
    hide ReadReply, Lines, Header, Chunks, Concat, Numeral, StatusLine, LengthLine;
    var h := Header(status, reason, contentType, |body|);
    LengthTruth(status, reason, contentType, body);
    ChunksExact(body, 0);
    ConcatOne(h);
    ConcatAppend([h], Chunks(body, 0));
    assert body[0..] == body;
    HeaderIs(status, reason, contentType, |body|, body);
    hide TypeLine;
    RepliesBy([h] + Chunks(body, 0), StatusLine(status, reason), contentType, body, LengthLine(|body|), CLOSE_LINE);
  }

  lemma RepliesBy(pieces: seq<string>, status: string, contentType: string, body: string, third: string, fourth: string)
    requires ReadReply(Concat(pieces), None) == Some(Reply(Some(|body|), body))
    requires Lines(Concat(pieces)) == [status, TypeLine(contentType), third, fourth] && fourth == CLOSE_LINE
    ensures Replies(pieces, status, contentType, body)
  {
    hide ReadReply, Lines, Concat;
  }

  lemma OneChunk(body: string)
    requires 0 < |body| <= CHUNK_SIZE
    ensures Chunks(body, 0) == [body]
  {
    assert body[0..|body|] == body;
    assert Chunks(body, |body|) == [];
  }

  /** route_file after the lookup: fileSize is the size found in the directory (0 if none), buf what read_file left. The
      pieces written make a reply whose body is the file by its size, or the text when there is no size, or as much of
      either as the buffer takes. */
  method RouteFile(client: Client, name: string, readOk: bool, fileSize: u32, buf: array<char>, cap: u32, ghost text: string)
    requires cap <= buf.Length < M32 && (fileSize == 0 ==> Holds(buf, |text|, text))
    modifies client
    ensures old(client.pieces) <= client.pieces
    ensures var sent := client.pieces[|old(client.pieces)|..];
            var size := if fileSize != 0 then fileSize else |text|;
            && (!readOk ==> Replies(sent, "HTTP/1.0 404 Not Found", "text/plain", "Not Found"))
            && (readOk && fileSize == 0 && |text| <= cap ==> Replies(sent, "HTTP/1.0 200 OK", ContentTypeFor(Ext(name)), text))
            && (readOk && 0 < fileSize <= cap ==> Replies(sent, "HTTP/1.0 200 OK", ContentTypeFor(Ext(name)), buf[..fileSize]))
            && (readOk && size > cap ==> Replies(sent, "HTTP/1.0 200 OK", ContentTypeFor(Ext(name)), buf[..cap]))
            && forall k :: 1 <= k < |sent| ==> 0 < |sent[k]| <= 128
  {
    hide Header, Ext, Chunks, Concat, Replies, FileReply, ContentTypeFor;
    ghost var before := client.pieces;
    if !readOk {
      RepliesRead(name, "");
      NotFound(client);
      assert client.pieces[|before|..] == NotFoundReply();
      return;
    }
    var len := fileSize;
    if len == 0 {
      len := Strlen(buf, text);
    }
    if len > cap {
      len := cap;
    }
    SendFile(client, name, buf, len);
    RepliesRead(name, buf[..len]);
    SmallPieces(name, buf[..len]);
    assert client.pieces[|before|..] == FileReply(name, buf[..len]);
  }

  lemma SmallPieces(name: string, body: string)
    requires |body| < M32
    ensures forall k :: 1 <= k < |FileReply(name, body)| ==> 0 < |FileReply(name, body)[k]| <= CHUNK_SIZE
  {
    ChunksExact(body, 0);
    var c := Chunks(body, 0);
    forall k | 1 <= k < |FileReply(name, body)| ensures 0 < |FileReply(name, body)[k]| <= CHUNK_SIZE {
      assert FileReply(name, body)[k] == c[k - 1] && c[k - 1] in c;
    }
  }

  /** The 200 reply, headers first. */
  method SendFile(client: Client, name: string, buf: array<char>, len: u32)
    requires len <= buf.Length
    modifies client
    ensures client.pieces == old(client.pieces) + FileReply(name, buf[..len])
  {
    hide Header, Ext, Chunks, Concat;
    var ext := ExtOf(name);
    HeaderFits(200, "OK", ContentTypeFor(ext), len);
    Respond(client, 200, "OK", ContentTypeFor(ext), None, len);
    SendBody(client, buf, len);
  }

  method NotFound(client: Client)
    modifies client
    ensures client.pieces == old(client.pieces) + NotFoundReply()
  {
    hide Header;
    HeaderFits(404, NOT_FOUND, "text/plain", |NOT_FOUND|);
    Respond(client, 404, NOT_FOUND, "text/plain", Some(NOT_FOUND), |NOT_FOUND|);
  }

  lemma SubSlice(buf: array<char>, len: nat, from: nat, to: nat)
    requires from <= to <= len <= buf.Length
    ensures buf[from..to] == buf[..len][from..to]
  {
  }

  /** The first len bytes of buf in pieces. */
  method SendBody(client: Client, buf: array<char>, len: u32)
    requires len <= buf.Length
    modifies client
    ensures client.pieces == old(client.pieces) + Chunks(buf[..len], 0)
  {
    ghost var body := buf[..len];
    var sent: nat := 0;
    while sent < len
      invariant sent <= len && buf[..len] == body
      invariant client.pieces + Chunks(body, sent) == old(client.pieces) + Chunks(body, 0)
    {
      var chunk := len - sent;
      if chunk > CHUNK_SIZE {
        chunk := CHUNK_SIZE;
      }
      SubSlice(buf, len, sent, sent + chunk);
      client.Write(buf[sent..sent + chunk]);
      sent := sent + chunk;
    }
  }
}
