/** Reading interface names and addresses from `ifconfig` and `ip -4 addr` output. */
module IfconfigParser {
  import opened Text
  import opened Ipv4
  import opened Sequences

  datatype RemoteInterface = RemoteInterface(name: string, ipv4: string)

  predicate IsLoopbackInterfaceName(name: string) {
    name == "lo" || name == "lo0"
  }

  predicate IsValidIpv4(text: string) {
    InetPton(CString(text)).Some?
  }

  /** Drops one trailing colon and everything from the first at-sign. */
  function NormalizeName(name: string): string {
    var n := if name != "" && name[|name| - 1] == ':' then name[..|name| - 1] else name;
    n[..Find(n, '@')]
  }

  // The address of a line

  function WithoutAddrPrefix(candidate: string): string {
    if StartsWith(candidate, "addr:") then candidate[5..] else candidate
  }

  /** The candidate up to a slash if that is an address, and nothing otherwise. */
  function Judged(candidate: string): string {
    var c := WithoutAddrPrefix(candidate);
    var address := c[..Find(c, '/')];
    if IsValidIpv4(address) then address else ""
  }

  /** What the first marker among the tokens leads to. */
  function AddressOf(tokens: seq<string>): string {
    if tokens == [] then ""
    else if tokens[0] == "inet" then (if |tokens| == 1 then "" else Judged(tokens[1]))
    else if StartsWith(tokens[0], "addr:") then Judged(tokens[0][5..])
    else AddressOf(tokens[1..])
  }

  function InetAddress(line: string): string {
    AddressOf(Tokens(line))
  }

  /** `operator>>` on the rest of a stream. */
  method NextToken(stream: string) returns (ok: bool, token: string, rest: string)
    ensures ok <==> Tokens(stream) != []
    ensures ok ==> Tokens(stream) == [token] + Tokens(rest) && |rest| < |stream|
  {
    rest := stream;
    while rest != "" && IsSpace(rest[0])
      invariant |rest| <= |stream| && Tokens(rest) == Tokens(stream)
      decreases |rest|
    {
      rest := rest[1..];
    }
    ok := rest != "";
    token := "";
    if ok {
      var n := WordLength(rest);
      token := rest[..n];
      rest := rest[n..];
    }
  }

  method ExtractInetAddress(line: string) returns (address: string)
    ensures address == InetAddress(line)
  {
    hide IsValidIpv4;
    TokensOfTrim(line);
    var rest := Trim(line);
    while true
      invariant AddressOf(Tokens(rest)) == InetAddress(line)
      decreases |rest|
    {
      var ok, token, tail := NextToken(rest);
      if !ok {
        return "";
      }
      rest := tail;
      var candidate;
      if token == "inet" {
        ok, candidate, tail := NextToken(rest);
        if !ok {
          return "";
        }
      } else if StartsWith(token, "addr:") {
        candidate := token[5..];
      } else {
        continue;
      }
      if StartsWith(candidate, "addr:") {
        candidate := candidate[5..];
      }
      candidate := candidate[..Find(candidate, '/')];
      if IsValidIpv4(candidate) {
        return candidate;
      }
      return "";
    }
  }

  // The list

  function Appended(found: seq<RemoteInterface>, name: string, ipv4: string): seq<RemoteInterface> {
    if name == "" || ipv4 == "" || IsLoopbackInterfaceName(name) then found
    else PushUnique(found, RemoteInterface(name, ipv4))
  }

  method Append(found: seq<RemoteInterface>, name: string, ipv4: string) returns (r: seq<RemoteInterface>)
    ensures r == Appended(found, name, ipv4)
    ensures name == "" || ipv4 == "" || name == "lo" || name == "lo0" || RemoteInterface(name, ipv4) in found ==>
      r == found
    ensures name != "" && ipv4 != "" && name != "lo" && name != "lo0" && RemoteInterface(name, ipv4) !in found ==>
      r == found + [RemoteInterface(name, ipv4)]
  {
    r := found;
    if name == "" || ipv4 == "" || IsLoopbackInterfaceName(name) {
      return;
    }
    var duplicate := false;
    var i := 0;
    while i < |found| && !duplicate
      invariant i <= |found|
      invariant duplicate <==> RemoteInterface(name, ipv4) in found[..i]
    {
      duplicate := found[i].name == name && found[i].ipv4 == ipv4;
      i := i + 1;
    }
    assert found[..|found|] == found;
    if !duplicate {
      r := r + [RemoteInterface(name, ipv4)];
    }
  }

  // Both parsers, line by line

  datatype Format = Ifconfig | IpAddr

  /** The name of the current block and the pairs found so far. */
  datatype State = State(current: string, found: seq<RemoteInterface>)

  /** Whether the line opens a block: for `ifconfig` it is not indented, for `ip` its text starts with a
      digit and holds a colon. */
  predicate OpensBlock(format: Format, line: string) {
    match format
    case Ifconfig => line != "" && !IsSpace(line[0])
    case IpAddr =>
      var text := Trim(line);
      text != "" && IsDigit(text[0]) && ':' in text
  }

  /** The name on a line that opens a block: its first token, or its second after the index. */
  function BlockName(format: Format, line: string): string {
    var tokens := Tokens(line);
    var i := if format.Ifconfig? then 0 else 1;
    NormalizeName(if i < |tokens| then tokens[i] else "")
  }

  function WithAddress(state: State, line: string): State {
    if state.current == "" || InetAddress(line) == "" then state
    else state.(found := Appended(state.found, state.current, InetAddress(line)))
  }

  /** `ip` looks for no address on the line that opens a block, `ifconfig` does. */
  function AfterLine(format: Format, state: State, line: string): State {
    if OpensBlock(format, line) then
      var inBlock := state.(current := BlockName(format, line));
      if format.Ifconfig? then WithAddress(inBlock, line) else inBlock
    else WithAddress(state, line)
  }

  function AfterLines(format: Format, state: State, lines: seq<string>): State
    decreases |lines|
  {
    if lines == [] then state
    else AfterLines(format, AfterLine(format, state, lines[0]), lines[1..])
  }

  function AfterText(format: Format, state: State, text: string): State {
    AfterLines(format, state, Lines(text))
  }

  function Parsed(format: Format, output: string): seq<RemoteInterface> {
    AfterText(format, State("", []), output).found
  }

  /** `getline` on the rest of a stream. */
  method GetLine(stream: string) returns (ok: bool, line: string, rest: string)
    ensures ok <==> stream != ""
    ensures ok ==> Lines(stream) == [line] + Lines(rest) && |rest| < |stream|
  {
    ok := stream != "";
    line, rest := "", "";
    if ok {
      var i := Find(stream, '\n');
      line := stream[..i];
      if i < |stream| {
        rest := stream[i + 1..];
      } else {
        assert line == stream;
      }
    }
  }

  /** A line without a visible character changes nothing, so the source may skip it. */
  lemma BlankLine(format: Format, state: State, line: string)
    requires AllSpace(line)
    ensures AfterLine(format, state, line) == state
  {
    TokensAfterSpace(line, "");
    assert line + "" == line;
    if format.IpAddr? && Trim(line) != "" {
      var before, after := TrimParts(line);
      assert line[|before|] == Trim(line)[0];
    }
  }

  method ParseIfconfigOutput(output: string) returns (interfaces: seq<RemoteInterface>)
    ensures interfaces == Parsed(Ifconfig, output)
    ensures forall pair :: pair in interfaces ==> pair.name != "lo" && pair.name != "lo0"
  {
    hide InetAddress;
    interfaces := [];
    var stream, current := output, "";
    while true
      invariant AfterText(Ifconfig, State(current, interfaces), stream) == AfterText(Ifconfig, State("", []), output)
      invariant forall pair :: pair in interfaces ==> pair.name != "lo" && pair.name != "lo0"
      decreases |stream|
    {
      var ok, line, rest := GetLine(stream);
      if !ok {
        return;
      }
      stream := rest;
      if line == "" {
        BlankLine(Ifconfig, State(current, interfaces), line);
        continue;
      }
      var newBlock := !IsSpace(line[0]);
      ghost var before := State(current, interfaces);
      if newBlock {
        var hasFirst, first, tail := NextToken(line);
        TokensWord(line[..WordLength(line)], line[WordLength(line)..]);
        current := NormalizeName(first);
      }
      if current == "" {
        assert AfterLine(Ifconfig, before, line) == State(current, interfaces);
        continue;
      }
      var address := ExtractInetAddress(line);
      if address != "" {
        interfaces := Append(interfaces, current, address);
      }
      assert AfterLine(Ifconfig, before, line) == State(current, interfaces);
    }
  }

  method ParseIpAddrOutput(output: string) returns (interfaces: seq<RemoteInterface>)
    ensures interfaces == Parsed(IpAddr, output)
    ensures forall pair :: pair in interfaces ==> pair.name != "lo" && pair.name != "lo0"
  {
    hide InetAddress;
    interfaces := [];
    var stream, current := output, "";
    while true
      invariant AfterText(IpAddr, State(current, interfaces), stream) == AfterText(IpAddr, State("", []), output)
      invariant forall pair :: pair in interfaces ==> pair.name != "lo" && pair.name != "lo0"
      decreases |stream|
    {
      var ok, line, rest := GetLine(stream);
      if !ok {
        return;
      }
      stream := rest;
      var trimmed := Trim(line);
      ghost var before := State(current, interfaces);
      TokensOfTrim(line);
      AddressOfTrimmed(line);
      if trimmed == "" {
        assert AfterLine(IpAddr, before, line) == before;
        continue;
      }
      if IsDigit(trimmed[0]) && Find(trimmed, ':') < |trimmed| {
        var hasIndex, index, tail := NextToken(trimmed);
        var hasName, name, end := NextToken(tail);
        current := NormalizeName(if hasIndex && hasName then name else "");
        assert AfterLine(IpAddr, before, line) == State(current, interfaces);
        continue;
      }
      if current == "" {
        assert AfterLine(IpAddr, before, line) == before;
        continue;
      }
      var address := ExtractInetAddress(trimmed);
      if address != "" {
        interfaces := Append(interfaces, current, address);
      }
      assert AfterLine(IpAddr, before, line) == State(current, interfaces);
    }
  }

  lemma AddressOfTrimmed(line: string)
    ensures InetAddress(Trim(line)) == InetAddress(line)
    ensures Trim(line) == "" ==> InetAddress(line) == ""
  {
    TokensOfTrim(line);
  }
}
