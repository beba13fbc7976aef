/** Reading and judging the identification string of a peer (section 4.2 of RFC 4253). */
module SshDetector {

  const MAX_BANNER_BYTES := 512
  const CHUNK_BYTES := 128

  datatype SshProbeStatus = SshDetected | NotSsh | NoBanner | PortClosed | Timeout | Unreachable | Error

  datatype SshProbeResult = SshProbeResult(ip: string, status: SshProbeStatus, banner: string) {
    predicate IsSsh() {
      status == SshDetected
    }
  }

  predicate IsSshIdentification(line: string) {
    "SSH-" <= line
  }

  // Sanitising

  predicate IsPrintable(c: char) {
    0x20 <= c as int < 0x7f
  }

  predicate IsLineEnd(c: char) {
    c == '\r' || c == '\n'
  }

  function FirstLine(s: string): string {
    if s == "" || IsLineEnd(s[0]) then "" else [s[0]] + FirstLine(s[1..])
  }

  function Shown(s: string): string {
    seq(|s|, i requires 0 <= i < |s| => if IsPrintable(s[i]) then s[i] else '?')
  }

  function DropTrailingSpaces(s: string): string {
    if s != "" && s[|s| - 1] == ' ' then DropTrailingSpaces(s[..|s| - 1]) else s
  }

  function Sanitized(raw: string): string {
    DropTrailingSpaces(Shown(FirstLine(raw)))
  }

  lemma FirstLineStep(raw: string, i: nat)
    requires i < |raw| && !IsLineEnd(raw[i])
    ensures raw[..i] + FirstLine(raw[i..]) == raw[..i + 1] + FirstLine(raw[i + 1..])
    ensures Shown(raw[..i + 1]) == Shown(raw[..i]) + [if IsPrintable(raw[i]) then raw[i] else '?']
  {
    assert raw[..i + 1] == raw[..i] + [raw[i]];
    assert raw[i..][1..] == raw[i + 1..];
  }

  method SanitizeBanner(raw: string) returns (result: string)
    ensures result == Sanitized(raw)
  {
    result := "";
    var i := 0;
    while i < |raw|
      invariant i <= |raw|
      invariant FirstLine(raw) == raw[..i] + FirstLine(raw[i..])
      invariant result == Shown(raw[..i])
    {
      var c := raw[i];
      if IsLineEnd(c) {
        break;
      }
      FirstLineStep(raw, i);
      result := result + [if IsPrintable(c) then c else '?'];
      i := i + 1;
    }
    assert FirstLine(raw) == raw[..i];
    ghost var shown := result;
    while result != "" && result[|result| - 1] == ' '
      invariant DropTrailingSpaces(result) == DropTrailingSpaces(shown)
      decreases |result|
    {
      result := result[..|result| - 1];
    }
  }

  lemma {:induction false} FirstLineShape(s: string)
    ensures FirstLine(s) <= s && (forall i :: 0 <= i < |FirstLine(s)| ==> !IsLineEnd(s[i]))
    ensures |FirstLine(s)| < |s| ==> IsLineEnd(s[|FirstLine(s)|])
  {
    if s != "" && !IsLineEnd(s[0]) {
      FirstLineShape(s[1..]);
      assert forall i :: 0 < i < |FirstLine(s)| ==> s[i] == s[1..][i - 1];
    }
  }

  /** The first line is settled by any piece of the start that reaches its end. */
  lemma {:induction false} FirstLineOfPrefix(s: string, t: string)
    requires s <= t && (s == t || |FirstLine(t)| < |s|)
    ensures FirstLine(s) == FirstLine(t)
  {
    if s != "" && !IsLineEnd(s[0]) {
      FirstLineOfPrefix(s[1..], t[1..]);
    }
  }

  lemma {:induction false} DroppedSpaces(s: string)
    ensures DropTrailingSpaces(s) <= s
    ensures forall i :: |DropTrailingSpaces(s)| <= i < |s| ==> s[i] == ' '
    ensures DropTrailingSpaces(s) != "" ==> DropTrailingSpaces(s)[|DropTrailingSpaces(s)| - 1] != ' '
  {
    if s != "" && s[|s| - 1] == ' ' {
      DroppedSpaces(s[..|s| - 1]);
    }
  }

  lemma NothingToSanitize(s: string)
    requires AllPrintable(s)
    ensures FirstLine(s) == s && Shown(s) == s
  {
    NoLineEndInside(s);
    ShownPrintable(s);
  }

  /** Character by character: the first line with a question mark for each unprintable character, up to
      and including the last one that is not a space. */
  lemma SanitizedCharacters(raw: string)
    ensures |Sanitized(raw)| <= |FirstLine(raw)| <= |raw|
    ensures forall i :: 0 <= i < |Sanitized(raw)| ==>
      Sanitized(raw)[i] == if ' ' <= raw[i] <= '~' then raw[i] else '?'
    ensures forall i :: |Sanitized(raw)| <= i < |FirstLine(raw)| ==> raw[i] == ' '
    ensures Sanitized(raw) != "" ==> raw[|Sanitized(raw)| - 1] != ' '
    ensures forall i :: 0 <= i < |FirstLine(raw)| ==> raw[i] != '\r' && raw[i] != '\n'
    ensures |FirstLine(raw)| < |raw| ==> raw[|FirstLine(raw)|] == '\r' || raw[|FirstLine(raw)|] == '\n'
  {
    var shown := Shown(FirstLine(raw));
    FirstLineShape(raw);
    DroppedSpaces(shown);
    forall i | |Sanitized(raw)| <= i < |shown| ensures raw[i] == ' ' {
      assert shown[i] == ' ';
    }
  }

  lemma SanitizedIsPrintable(raw: string)
    ensures forall i :: 0 <= i < |Sanitized(raw)| ==> IsPrintable(Sanitized(raw)[i])
  {
    DroppedSpaces(Shown(FirstLine(raw)));
  }

  lemma IdentificationByCharacter(s: string)
    ensures IsSshIdentification(s) <==> |s| >= 4 && s[0] == 'S' && s[1] == 'S' && s[2] == 'H' && s[3] == '-'
  {
    if |s| >= 4 && s[0] == 'S' && s[1] == 'S' && s[2] == 'H' && s[3] == '-' {
      assert s[..4] == "SSH-";
    }
  }

  lemma SanitizedVerdict(raw: string)
    ensures IsSshIdentification(Sanitized(raw)) <==> IsSshIdentification(raw)
  {
    var line := FirstLine(raw);
    FirstLineShape(raw);
    DroppedSpaces(Shown(line));
    IdentificationByCharacter(raw);
    IdentificationByCharacter(Sanitized(raw));
    if IsSshIdentification(raw) {
      assert |line| >= 4;
      assert Shown(line)[3] == '-';
    }
  }

  /** The sanitised banner is printable, claims to be SSH exactly when the raw bytes do, and is left
      alone by a second pass. */
  lemma SanitizingKeepsVerdict(raw: string)
    ensures forall i :: 0 <= i < |Sanitized(raw)| ==> ' ' <= Sanitized(raw)[i] <= '~'
    ensures "SSH-" <= Sanitized(raw) <==> "SSH-" <= raw
    ensures Sanitized(Sanitized(raw)) == Sanitized(raw)
  {
    SanitizedIsPrintable(raw);
    SanitizedVerdict(raw);
    NothingToSanitize(Sanitized(raw));
    DroppedSpaces(Shown(FirstLine(raw)));
  }

  // What the header file says about sanitising

  function WithoutUnprintable(s: string): string {
    if s == "" then ""
    else WithoutUnprintable(s[..|s| - 1]) + if IsPrintable(s[|s| - 1]) then [s[|s| - 1]] else ""
  }

  /** The documented result: the line end and the unprintable characters are removed. */
  function Documented(raw: string): string {
    DropTrailingSpaces(WithoutUnprintable(FirstLine(raw)))
  }

  ghost predicate AllPrintable(s: string) {
    forall i :: 0 <= i < |s| ==> IsPrintable(s[i])
  }

  lemma {:induction false} RemovedCharacters(s: string)
    ensures if AllPrintable(s) then WithoutUnprintable(s) == s else |WithoutUnprintable(s)| < |s|
  {
    if s != "" {
      var front := s[..|s| - 1];
      RemovedCharacters(front);
      assert s == front + [s[|s| - 1]];
      assert AllPrintable(s) <==> AllPrintable(front) && IsPrintable(s[|s| - 1]);
    }
  }

  /** A question mark takes up a place that a removed character does not, and is never a trailing space. */
  lemma {:induction false} QuestionMarksLengthen(line: string)
    requires !AllPrintable(line)
    ensures |DropTrailingSpaces(WithoutUnprintable(line))| < |DropTrailingSpaces(Shown(line))|
  {
    var n := |line| - 1;
    if line[n] == ' ' {
      assert !AllPrintable(line[..n]) by {
        assert line == line[..n] + [' '];
      }
      assert Shown(line)[..n] == Shown(line[..n]);
      assert WithoutUnprintable(line)[..|WithoutUnprintable(line)| - 1] == WithoutUnprintable(line[..n]);
      QuestionMarksLengthen(line[..n]);
    } else {
      RemovedCharacters(line);
      DroppedSpaces(WithoutUnprintable(line));
      assert Shown(line)[n] != ' ';
    }
  }

  lemma ShownPrintable(s: string)
    requires AllPrintable(s)
    ensures Shown(s) == s
  {
  }

  /** The code does what the header file says exactly on first lines without unprintable characters. */
  lemma SanitizedAsDocumentedIff(raw: string)
    ensures Sanitized(raw) == Documented(raw) <==> AllPrintable(FirstLine(raw))
  {
    var line := FirstLine(raw);
    if AllPrintable(line) {
      RemovedCharacters(line);
      ShownPrintable(line);
    } else {
      QuestionMarksLengthen(line);
    }
  }

  /** A tab is shown as a question mark. */
  lemma TabIsNotRemoved()
    ensures Sanitized("a\tb") == "a?b" && Documented("a\tb") == "ab"
  {
    NoLineEndInside("a\tb");
    assert Shown("a\tb") == "a?b";
    assert "a\tb"[..2] == "a\t" && "a\t"[..1] == "a" && "a"[..0] == "";
  }

  lemma {:induction false} NoLineEndInside(s: string)
    requires forall i :: 0 <= i < |s| ==> !IsLineEnd(s[i])
    ensures FirstLine(s) == s
  {
    if s != "" {
      NoLineEndInside(s[1..]);
    }
  }

  // Reading

  /** What `recv` may deliver. */
  ghost predicate IsChunk(chunk: string) {
    1 <= |chunk| <= CHUNK_BYTES
  }

  ghost predicate AreChunks(chunks: seq<string>) {
    forall i :: 0 <= i < |chunks| ==> IsChunk(chunks[i])
  }

  predicate Enough(buffer: string) {
    '\n' in buffer || |buffer| >= MAX_BANNER_BYTES
  }

  /** The buffer when the loop ends. The chunks are what arrives before the deadline passes, the wait
      fails or the peer closes, so the loop may end after any number of them. */
  function Received(buffer: string, chunks: seq<string>): string
    decreases |chunks|
  {
    if chunks == [] then buffer
    else if Enough(buffer + chunks[0]) then buffer + chunks[0]
    else Received(buffer + chunks[0], chunks[1..])
  }

  function Judged(ip: string, buffer: string): SshProbeResult {
    if buffer == "" then SshProbeResult(ip, NoBanner, "")
    else
      var banner := Sanitized(buffer);
      SshProbeResult(ip, if IsSshIdentification(banner) then SshDetected else NotSsh, banner)
  }

  /** The byte stream that the chunks cut up. */
  function Stream(chunks: seq<string>): string {
    if chunks == [] then "" else chunks[0] + Stream(chunks[1..])
  }

  lemma {:induction false} StreamConcat(a: seq<string>, b: seq<string>)
    ensures Stream(a + b) == Stream(a) + Stream(b)
  {
    if a == [] {
      assert a + b == b;
    } else {
      assert (a + b)[1..] == a[1..] + b;
      StreamConcat(a[1..], b);
    }
  }

  lemma StreamUpTo(chunks: seq<string>, k: nat)
    requires k <= |chunks|
    ensures Stream(chunks[..k]) <= Stream(chunks)
    ensures k < |chunks| ==> Stream(chunks[..k + 1]) == Stream(chunks[..k]) + chunks[k]
  {
    hide Stream;
    StreamConcat(chunks[..k], chunks[k..]);
    assert chunks[..k] + chunks[k..] == chunks;
    if k < |chunks| {
      assert chunks[..k + 1] == chunks[..k] + [chunks[k]];
      StreamConcat(chunks[..k], [chunks[k]]);
      StreamOfOne(chunks[k]);
    }
  }

  lemma StreamOfOne(chunk: string)
    ensures Stream([chunk]) == chunk
  {
    assert [chunk][1..] == [];
  }

  /** The result in terms of the stream. Reading stops after the first chunk that completes a line or 512
      bytes; the banner is the sanitised text of what was read until then, and the status tells whether
      the stream claims to be SSH. */
  method ReadSshBanner(ip: string, chunks: seq<string>) returns (result: SshProbeResult, received: nat, size: nat)
    requires AreChunks(chunks)
    ensures result == Judged(ip, Received("", chunks)) && size == |Received("", chunks)|
    ensures size <= 639 && received <= 512 && received <= |chunks|
    ensures Stream(chunks[..received]) <= Stream(chunks) && size == |Stream(chunks[..received])|
    ensures forall k :: 0 < k < received ==> '\n' !in Stream(chunks[..k]) && |Stream(chunks[..k])| < 512
    ensures received < |chunks| ==> received > 0 && ('\n' in Stream(chunks[..received]) || size >= 512)
    ensures result.ip == ip
    ensures result.status ==
      if chunks == [] then NoBanner else if "SSH-" <= Stream(chunks) then SshDetected else NotSsh
    ensures result.banner == Sanitized(Stream(chunks[..received]))
    ensures |Stream(chunks)| <= 512 || |FirstLine(Stream(chunks))| < 512 ==>
      result.banner == Sanitized(FirstLine(Stream(chunks)))
  {
    hide Sanitized;
    var buffer := "";
    received := 0;
    while received < |chunks|
      invariant received <= |chunks| && received <= |buffer| < MAX_BANNER_BYTES
      invariant Received("", chunks) == Received(buffer, chunks[received..])
      invariant buffer == Stream(chunks[..received])
      invariant forall k :: 0 < k <= received ==> !Enough(Stream(chunks[..k]))
    {
      var chunk := chunks[received];
      assert IsChunk(chunk) && chunks[received..][1..] == chunks[received + 1..];
      StreamUpTo(chunks, received);
      buffer := buffer + chunk;
      received := received + 1;
      if '\n' in buffer || |buffer| >= MAX_BANNER_BYTES {
        break;
      }
    }
    size := |buffer|;
    StreamUpTo(chunks, received);
    StatusIndependentOfChunks(ip, chunks);
    if |Stream(chunks)| <= 512 || |FirstLine(Stream(chunks))| < 512 {
      BannerIndependentOfChunks(ip, chunks);
    }
    BufferOfStream(chunks);
    if buffer == "" {
      result := SshProbeResult(ip, NoBanner, "");
      assert Sanitized("") == "" by { NothingToSanitize(""); SanitizedCharacters(""); }
    } else {
      var banner := SanitizeBanner(buffer);
      result := SshProbeResult(ip, if IsSshIdentification(banner) then SshDetected else NotSsh, banner);
    }
  }

  /** The buffer is the start of the stream, and all of it unless there was enough before. */
  lemma {:induction false} ReceivedIsPrefix(buffer: string, chunks: seq<string>)
    requires AreChunks(chunks)
    ensures Received(buffer, chunks) <= buffer + Stream(chunks)
    ensures Received(buffer, chunks) == buffer + Stream(chunks)
         || (Enough(Received(buffer, chunks)) && chunks != [])
    ensures chunks != [] ==> Received(buffer, chunks) != ""
    decreases |chunks|
  {
    if chunks != [] {
      assert IsChunk(chunks[0]);
      assert buffer + Stream(chunks) == buffer + chunks[0] + Stream(chunks[1..]);
      if !Enough(buffer + chunks[0]) {
        ReceivedIsPrefix(buffer + chunks[0], chunks[1..]);
      }
    }
  }

  lemma BufferOfStream(chunks: seq<string>)
    requires AreChunks(chunks)
    ensures Received("", chunks) <= Stream(chunks)
    ensures Received("", chunks) == Stream(chunks) || Enough(Received("", chunks))
    ensures chunks == [] <==> Received("", chunks) == ""
  {
    ReceivedIsPrefix("", chunks);
    assert "" + Stream(chunks) == Stream(chunks);
  }

  lemma EnoughForIdentification(buffer: string, stream: string)
    requires buffer <= stream && (buffer == stream || Enough(buffer))
    ensures IsSshIdentification(buffer) <==> IsSshIdentification(stream)
  {
    IdentificationByCharacter(buffer);
    IdentificationByCharacter(stream);
  }

  /** Whatever the stream and however it is cut, the status is that of the whole stream. */
  lemma StatusIndependentOfChunks(ip: string, chunks: seq<string>)
    requires AreChunks(chunks)
    ensures Judged(ip, Received("", chunks)).status
         == if chunks == [] then NoBanner
            else if "SSH-" <= Stream(chunks) then SshDetected else NotSsh
  {
    var buffer := Received("", chunks);
    BufferOfStream(chunks);
    SanitizedVerdict(buffer);
    EnoughForIdentification(buffer, Stream(chunks));
  }

  lemma EnoughForFirstLine(buffer: string, stream: string)
    requires buffer <= stream && (buffer == stream || Enough(buffer))
    requires |stream| <= MAX_BANNER_BYTES || |FirstLine(stream)| < MAX_BANNER_BYTES
    ensures FirstLine(buffer) == FirstLine(stream)
  {
    FirstLineShape(stream);
    if buffer != stream && '\n' in buffer {
      var i :| 0 <= i < |buffer| && buffer[i] == '\n';
      assert stream[i] == '\n';
      assert |FirstLine(stream)| <= i;
    }
    FirstLineOfPrefix(buffer, stream);
  }

  /** The banner does not depend on the cuts either, provided the first line ends among the first 512
      bytes or no more than those arrive. */
  lemma BannerIndependentOfChunks(ip: string, chunks: seq<string>)
    requires AreChunks(chunks)
    requires |Stream(chunks)| <= MAX_BANNER_BYTES || |FirstLine(Stream(chunks))| < MAX_BANNER_BYTES
    ensures Judged(ip, Received("", chunks)).banner == Sanitized(FirstLine(Stream(chunks)))
  {
    BufferOfStream(chunks);
    EnoughForFirstLine(Received("", chunks), Stream(chunks));
    FirstLineOfFirstLine(Stream(chunks));
  }

  lemma {:induction false} FirstLineOfFirstLine(s: string)
    ensures FirstLine(FirstLine(s)) == FirstLine(s)
  {
    if s != "" && !IsLineEnd(s[0]) {
      FirstLineOfFirstLine(s[1..]);
      assert FirstLine(s)[1..] == FirstLine(s[1..]);
    }
  }

  // A first line longer than 512 bytes

  /** The bytes that one cut may deliver and another may not: of the first line, those past the first 512
      and before the 640th. */
  ghost predicate OnlySpacesPastLimit(stream: string) {
    var line := FirstLine(stream);
    forall i :: MAX_BANNER_BYTES <= i < |line| && i < MAX_BANNER_BYTES + CHUNK_BYTES - 1 ==> line[i] == ' '
  }

  ghost predicate CutsUp(chunks: seq<string>, stream: string) {
    AreChunks(chunks) && Stream(chunks) == stream
  }

  lemma {:induction false} BufferIsBounded(buffer: string, chunks: seq<string>)
    requires AreChunks(chunks) && |buffer| < MAX_BANNER_BYTES
    ensures |Received(buffer, chunks)| < MAX_BANNER_BYTES + CHUNK_BYTES
    decreases |chunks|
  {
    if chunks != [] {
      assert IsChunk(chunks[0]);
      if !Enough(buffer + chunks[0]) {
        BufferIsBounded(buffer + chunks[0], chunks[1..]);
      }
    }
  }

  lemma {:induction false} FirstLineUpTo(s: string, n: nat)
    requires n <= |s|
    ensures |FirstLine(s)| <= |s|
    ensures FirstLine(s[..n]) == if |FirstLine(s)| <= n then FirstLine(s) else FirstLine(s)[..n]
  {
    if s != "" && n > 0 && !IsLineEnd(s[0]) {
      FirstLineUpTo(s[1..], n - 1);
      assert s[..n][1..] == s[1..][..n - 1];
    } else {
      FirstLineShape(s);
    }
  }

  /** What the buffer shows of the first line: all of it, or at least 512 bytes. */
  lemma FirstLineReceived(chunks: seq<string>) returns (n: nat)
    requires AreChunks(chunks)
    ensures n <= |FirstLine(Stream(chunks))| && FirstLine(Received("", chunks)) == FirstLine(Stream(chunks))[..n]
    ensures n == |FirstLine(Stream(chunks))| || n >= MAX_BANNER_BYTES
    ensures n < MAX_BANNER_BYTES + CHUNK_BYTES
  {
    var buffer, stream := Received("", chunks), Stream(chunks);
    BufferOfStream(chunks);
    BufferIsBounded("", chunks);
    FirstLineUpTo(stream, |buffer|);
    assert buffer == stream[..|buffer|];
    n := |FirstLine(buffer)|;
    if buffer != stream && '\n' in buffer {
      FirstLineShape(stream);
      var i :| 0 <= i < |buffer| && buffer[i] == '\n';
      assert stream[i] == '\n';
      assert |FirstLine(stream)| <= i;
    }
  }

  lemma {:induction false} SpacesDropped(line: string, m: nat, n: nat)
    requires m <= n <= |line| && forall i :: m <= i < n ==> line[i] == ' '
    ensures DropTrailingSpaces(Shown(line[..n])) == DropTrailingSpaces(Shown(line[..m]))
    decreases n
  {
    if m < n {
      assert Shown(line[..n])[n - 1] == ' ';
      assert Shown(line[..n])[..n - 1] == Shown(line[..n - 1]);
      SpacesDropped(line, m, n - 1);
    }
  }

  lemma BannerBeforeLimit(chunks: seq<string>)
    requires AreChunks(chunks) && OnlySpacesPastLimit(Stream(chunks))
    ensures var line := FirstLine(Stream(chunks));
      Sanitized(Received("", chunks))
      == DropTrailingSpaces(Shown(if |line| <= MAX_BANNER_BYTES then line else line[..MAX_BANNER_BYTES]))
  {
    var line := FirstLine(Stream(chunks));
    var n := FirstLineReceived(chunks);
    if |line| <= MAX_BANNER_BYTES {
      assert line[..n] == line;
    } else {
      SpacesDropped(line, MAX_BANNER_BYTES, n);
    }
  }

  /** Full chunks, as many as the stream gives. */
  function FullChunks(s: string): (chunks: seq<string>)
    ensures CutsUp(chunks, s)
  {
    if s == "" then []
    else if |s| <= CHUNK_BYTES then [s]
    else
      var rest := FullChunks(s[CHUNK_BYTES..]);
      assert s[..CHUNK_BYTES] + s[CHUNK_BYTES..] == s;
      [s[..CHUNK_BYTES]] + rest
  }

  /** One more chunk after the first `i` bytes of the stream. */
  lemma NextChunk(s: string, i: nat, j: nat)
    requires i < j <= |s| && (j == i + CHUNK_BYTES || j == |s| < i + CHUNK_BYTES)
    ensures Received(s[..i], FullChunks(s[i..]))
         == if Enough(s[..j]) then s[..j] else Received(s[..j], FullChunks(s[j..]))
  {
    var chunks := FullChunks(s[i..]);
    assert chunks[0] == s[i..j] && s[..i] + s[i..j] == s[..j];
    assert s[i..][j - i..] == s[j..];
    assert chunks[1..] == FullChunks(s[j..]);
  }

  /** Where reading stops depends on how the position lies to the size of a chunk. */
  lemma {:induction false} FullChunksReceived(s: string, i: nat)
    requires i < MAX_BANNER_BYTES < |s| && '\n' !in s[..MAX_BANNER_BYTES]
    ensures i % CHUNK_BYTES == 0 ==> Received(s[..i], FullChunks(s[i..])) == s[..MAX_BANNER_BYTES]
    ensures i % CHUNK_BYTES == 127 ==>
      Received(s[..i], FullChunks(s[i..])) == s[..if |s| < 639 then |s| else 639]
    decreases MAX_BANNER_BYTES - i
  {
    hide Received, FullChunks;
    var j := if |s| < i + CHUNK_BYTES then |s| else i + CHUNK_BYTES;
    NextChunk(s, i, j);
    if j < MAX_BANNER_BYTES {
      assert !Enough(s[..j]) by {
        assert s[..j] == s[..MAX_BANNER_BYTES][..j];
      }
      FullChunksReceived(s, j);
    }
  }

  lemma EvenCut(stream: string) returns (chunks: seq<string>)
    requires MAX_BANNER_BYTES < |stream| && '\n' !in stream[..MAX_BANNER_BYTES]
    ensures CutsUp(chunks, stream) && Received("", chunks) == stream[..MAX_BANNER_BYTES]
  {
    chunks := FullChunks(stream);
    FullChunksReceived(stream, 0);
    assert stream[0..] == stream && stream[..0] == "";
  }

  lemma OddCut(stream: string) returns (chunks: seq<string>)
    requires MAX_BANNER_BYTES < |stream| && '\n' !in stream[..MAX_BANNER_BYTES]
    ensures CutsUp(chunks, stream)
    ensures Received("", chunks) == stream[..if |stream| < 639 then |stream| else 639]
  {
    var first, rest := stream[..127], FullChunks(stream[127..]);
    chunks := [first] + rest;
    assert first + stream[127..] == stream && chunks[1..] == rest;
    assert !Enough(first) by {
      assert first == stream[..MAX_BANNER_BYTES][..127];
    }
    assert "" + first == first;
    FullChunksReceived(stream, 127);
  }

  lemma LongerBanner(stream: string, i: nat, n: nat)
    requires i < |FirstLine(stream)| && i < n <= |stream| && FirstLine(stream)[i] != ' '
    ensures |Sanitized(stream[..n])| > i
  {
    FirstLineShape(stream);
    FirstLineUpTo(stream, n);
    SanitizedCharacters(stream[..n]);
    assert stream[..n][i] != ' ';
  }

  /** The same stream in full chunks, and after a first chunk that is one byte short. */
  lemma LongLineHasTwoBanners(stream: string) returns (even: seq<string>, odd: seq<string>)
    requires !OnlySpacesPastLimit(stream)
    ensures CutsUp(even, stream) && CutsUp(odd, stream)
    ensures |Sanitized(Received("", even))| <= MAX_BANNER_BYTES < |Sanitized(Received("", odd))|
  {
    hide Sanitized, Received, FullChunks;
    var line := FirstLine(stream);
    var i :| MAX_BANNER_BYTES <= i < |line| && i < MAX_BANNER_BYTES + CHUNK_BYTES - 1 && line[i] != ' ';
    FirstLineShape(stream);
    even := EvenCut(stream);
    odd := OddCut(stream);
    SanitizedCharacters(stream[..MAX_BANNER_BYTES]);
    LongerBanner(stream, i, if |stream| < 639 then |stream| else 639);
  }

  /** The banner is the same for all cuts of a stream exactly when the first line has nothing but spaces
      in the bytes that only some of the cuts deliver. */
  lemma BannerIndependentIff(stream: string)
    ensures OnlySpacesPastLimit(stream) <==>
      forall a, b :: CutsUp(a, stream) && CutsUp(b, stream) ==>
        Sanitized(Received("", a)) == Sanitized(Received("", b))
  {
    if OnlySpacesPastLimit(stream) {
      forall a, b | CutsUp(a, stream) && CutsUp(b, stream)
        ensures Sanitized(Received("", a)) == Sanitized(Received("", b))
      {
        BannerBeforeLimit(a);
        BannerBeforeLimit(b);
      }
    } else {
      var even, odd := LongLineHasTwoBanners(stream);
    }
  }
}
